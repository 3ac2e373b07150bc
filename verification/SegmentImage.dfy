/** What a successful load leaves in memory: the image of every segment at its place, and nothing else
    changed. */
module SegmentImage {
  import opened Basics
  import opened Paging
  import opened ProcessMemory
  import opened LoadExtent
  import opened SegmentLoader

  /** A segment the ELF rules allow: no more file than memory, congruent to its file offset, and without
      wrap-around where it is loaded. */
  predicate Sound(p: Phdr, bias: U64) {
    && p.filesz <= p.memsz && PageOffset(p.vaddr) == PageOffset(p.offset) && PageAligned(bias)
    && SegStart(p, bias) + p.memsz + 4095 < 0x1_0000_0000_0000_0000
    && p.offset + p.filesz < 0x1_0000_0000_0000_0000
  }

  // ----- Where the parts of a segment lie -----

  function Lo(p: Phdr, bias: U64): nat { PageStart(SegStart(p, bias)) }

  function FileTo(p: Phdr, bias: U64): nat { SegStart(p, bias) + p.filesz }

  function Mid(p: Phdr, bias: U64): nat { PageUp(SegStart(p, bias) + p.filesz) }

  function Hi(p: Phdr, bias: U64): nat { PageUp(SegStart(p, bias) + p.memsz) }

  predicate InPages(p: Phdr, bias: U64, a: int) { Lo(p, bias) <= a < Hi(p, bias) }

  lemma {:induction false} WrapKeepsOffset(x: nat)
    requires x < 0x2_0000_0000_0000_0000
    ensures PageOffset(Wrap64(x)) == PageOffset(x)
  {
    if x >= 0x1_0000_0000_0000_0000 {
      RoundingShifts(x, -0x1_0000_0000_0000_0000);
    }
  }

  lemma {:induction false} SameOffset(p: Phdr, bias: U64)
    requires PageOffset(p.vaddr) == PageOffset(p.offset) && PageAligned(bias)
    ensures PageOffset(SegStart(p, bias)) == PageOffset(p.offset)
  {
    WrapKeepsOffset(p.vaddr + bias);
    RoundingShifts(p.vaddr, bias);
  }

  /** The 64-bit sums of the code, without wrap-around. */
  predicate Exact(p: Phdr, bias: U64) {
    && SegEnd(p, bias) == SegStart(p, bias) + p.memsz && PageEnd(SegEnd(p, bias)) == Hi(p, bias)
    && SegFileEnd(p, bias) == FileTo(p, bias) && PageEnd(SegFileEnd(p, bias)) == Mid(p, bias)
    && FileEnd(p) == p.offset + p.filesz
    && FileLength(p) == p.offset + p.filesz - PageStart(p.offset)
    && SegStart(p, bias) - Lo(p, bias) == p.offset - PageStart(p.offset)
    && Lo(p, bias) <= Mid(p, bias) <= Hi(p, bias)
    && Lo(p, bias) + FileLength(p) == FileTo(p, bias)
    && (FileLength(p) == 0 ==> Mid(p, bias) == Lo(p, bias))
    && Hi(p, bias) < 0x1_0000_0000_0000_0000
  }

  lemma {:induction false} EndsExact(p: Phdr, bias: U64)
    requires Sound(p, bias)
    ensures SegEnd(p, bias) == SegStart(p, bias) + p.memsz && SegFileEnd(p, bias) == FileTo(p, bias)
    ensures FileEnd(p) == p.offset + p.filesz && FileLength(p) == p.offset + p.filesz - PageStart(p.offset)
  {
  }

  lemma {:induction false} PagesExact(start: nat, offset: nat, filesz: nat, memsz: nat)
    requires PageOffset(start) == PageOffset(offset) && filesz <= memsz
    ensures start - PageStart(start) == offset - PageStart(offset)
    ensures PageStart(start) <= PageUp(start + filesz) <= PageUp(start + memsz)
    ensures offset + filesz == PageStart(offset) ==> PageUp(start + filesz) == PageStart(start)
  {
    hide PageStart, PageUp, PageOffset, PageAligned;
    OffsetIs(start);
    OffsetIs(offset);
    PageStartMonotone(start + filesz, start + memsz);
    PageStartMonotone(start, start + filesz);
    RoundingIsTight(start, PageStart(start));
    if offset + filesz == PageStart(offset) {
      Boundary(start);
    }
  }

  lemma {:induction false} SoundIsExact(p: Phdr, bias: U64)
    requires Sound(p, bias)
    ensures Exact(p, bias)
  {
    hide PageStart, PageUp, PageEnd, Wrap64;
    SameOffset(p, bias);
    EndsExact(p, bias);
    PagesExact(SegStart(p, bias), p.offset, p.filesz, p.memsz);
    HiFits(p, bias);
  }

  lemma {:induction false} HiFits(p: Phdr, bias: U64)
    requires SegStart(p, bias) + p.memsz + 4095 < 0x1_0000_0000_0000_0000
    ensures Hi(p, bias) < 0x1_0000_0000_0000_0000
  {
  }

  // ----- The image -----

  /** File content up to the file's last page, zeros after; and in a writable segment zeros from the end
      of the file content on. */
  function ImageCell(p: Phdr, bias: U64, src: Source, a: nat): Cell
    requires InPages(p, bias, a)
  {
    var end := FileTo(p, bias);
    if a >= Mid(p, bias) then ZeroCell(SegmentProt(p))
    else
      var cell := FileCell(src.file, src.offset + PageStart(p.offset) + (a - Lo(p, bias)), SegmentProt(p));
      if p.write && a >= PageStart(end) && PageOffset(end) != 0
      then Cell(if a >= end then Some(0) else cell.byte, cell.prot, Private)
      else cell
  }

  /** `after` is `before` with the image of `p` at its place. */
  ghost predicate HasImage(before: Memory, after: Memory, p: Phdr, bias: U64, src: Source)
  {
    forall a: nat :: after(a) == if InPages(p, bias, a) then Some(ImageCell(p, bias, src, a)) else before(a)
  }

  /** [lo, mid) of `after` shows the file from `base` on; the rest is as before. */
  ghost predicate Shows(before: Memory, after: Memory, lo: nat, mid: nat, prot: Prot, file: File, base: nat) {
    forall a: nat :: after(a) == if lo <= a < mid then Some(FileCell(file, base + (a - lo), prot)) else before(a)
  }

  lemma {:induction false} MapFileShows(m: Memory, lo: nat, length: nat, mid: nat, prot: Prot, file: File, base: nat)
    requires PageUp(lo + length) == mid
    ensures Shows(m, MapFile(m, lo, length, prot, file, base), lo, mid, prot, file, base)
  {
    hide PageStart, PageUp, PageEnd, Wrap64;
  }

  /** The memory after the file part: [Lo, Mid) shows the file. */
  ghost predicate HasContent(before: Memory, after: Memory, p: Phdr, bias: U64, src: Source) {
    Shows(before, after, Lo(p, bias), Mid(p, bias), SegmentProt(p), src.file, src.offset + PageStart(p.offset))
  }

  lemma {:induction false} ContentMapped(m: Memory, p: Phdr, i: nat, bias: U64, src: Source)
    requires Exact(p, bias) && MapContent(m, p, i, bias, src).Some?
    ensures HasContent(m, MapContent(m, p, i, bias, src).value, p, bias, src)
  {
    hide PageStart, PageUp, PageEnd, Wrap64;
    if FileLength(p) != 0 {
      MapFileShows(m, Lo(p, bias), FileLength(p), Mid(p, bias), SegmentProt(p), src.file,
                   src.offset + PageStart(p.offset));
    }
  }

  /** After the last file page is cleared: [Lo, Mid) is the image. */
  ghost predicate HasFilePages(before: Memory, after: Memory, p: Phdr, bias: U64, src: Source)
    requires Exact(p, bias)
  {
    forall a: nat ::
      after(a) == if Lo(p, bias) <= a < Mid(p, bias) then Some(ImageCell(p, bias, src, a)) else before(a)
  }

  lemma {:induction false} LastPage(end: nat)
    requires PageOffset(end) != 0
    ensures end + 4096 - PageOffset(end) == PageUp(end) == PageStart(end) + 4096
    ensures PageUp(PageUp(end)) == PageUp(end)
  {
    Boundary(PageUp(end));
  }

  /** The last page of a file part that ends inside it. */
  lemma {:induction false} LastPageOf(p: Phdr, bias: U64)
    requires Exact(p, bias) && PageOffset(FileTo(p, bias)) != 0
    ensures var end := FileTo(p, bias);
            && end + 4096 - PageOffset(end) == Mid(p, bias) == PageUp(Mid(p, bias))
            && Lo(p, bias) <= PageStart(end) <= end < Mid(p, bias)
  {
    hide PageStart, PageUp, PageEnd, Wrap64;
    LastPage(FileTo(p, bias));
    RoundingIsTight(FileTo(p, bias), Lo(p, bias));
  }

  lemma {:induction false} CellCleared(m: Memory, m1: Memory, p: Phdr, bias: U64, src: Source, a: nat)
    requires Exact(p, bias) && HasContent(m, m1, p, bias, src)
    requires p.write && PageOffset(FileTo(p, bias)) != 0
    requires Lo(p, bias) <= PageStart(FileTo(p, bias)) && PageUp(Mid(p, bias)) == Mid(p, bias)
    ensures ZeroFill(m1, FileTo(p, bias), Mid(p, bias))(a) ==
            if Lo(p, bias) <= a < Mid(p, bias) then Some(ImageCell(p, bias, src, a)) else m(a)
  {
    hide PageStart, PageUp, PageEnd, Wrap64;
    var cell := m1(a);
  }

  lemma {:induction false} LastPageCleared(m: Memory, m1: Memory, p: Phdr, bias: U64, src: Source)
    requires Exact(p, bias) && HasContent(m, m1, p, bias, src) && ZeroPartialPage(m1, p, bias).Some?
    ensures HasFilePages(m, ZeroPartialPage(m1, p, bias).value, p, bias, src)
  {
    hide PageStart, PageUp, PageEnd, Wrap64;
    if p.write && PageOffset(FileTo(p, bias)) != 0 {
      LastPageOf(p, bias);
      forall a: nat ensures ZeroFill(m1, FileTo(p, bias), Mid(p, bias))(a) ==
                            if Lo(p, bias) <= a < Mid(p, bias) then Some(ImageCell(p, bias, src, a)) else m(a)
      {
        CellCleared(m, m1, p, bias, src, a);
      }
    }
  }

  lemma {:induction false} ZeroPagesMapped(m: Memory, m2: Memory, p: Phdr, i: nat, bias: U64, src: Source)
    requires Exact(p, bias) && HasFilePages(m, m2, p, bias, src) && MapZeroPages(m2, p, i, bias, src).Some?
    ensures HasImage(m, MapZeroPages(m2, p, i, bias, src).value, p, bias, src)
  {
    hide PageStart, PageUp, PageEnd, Wrap64;
    Boundary(Hi(p, bias));
  }

  lemma {:induction false} SegmentLoads(m: Memory, p: Phdr, i: nat, bias: U64, src: Source)
    requires Sound(p, bias) && LoadSegment(m, p, i, bias, src).Loaded?
    ensures HasImage(m, LoadSegment(m, p, i, bias, src).memory, p, bias, src)
  {
    hide PageStart, PageUp, PageEnd, Wrap64;
    SoundIsExact(p, bias);
    var m1 := MapContent(m, p, i, bias, src).value;
    ContentMapped(m, p, i, bias, src);
    LastPageCleared(m, m1, p, bias, src);
    ZeroPagesMapped(m, ZeroPartialPage(m1, p, bias).value, p, i, bias, src);
  }

  // ----- When a segment loads -----

  /** What a sound segment must pass. Only a segment with something to map from the file is checked for
      being both writable and executable, and no check but the fault itself minds the container's end. */
  predicate Loadable(p: Phdr, i: nat, bias: U64, src: Source) {
    && ContentOk(p, i, src)
    && (ClearsPage(p, bias) ==> LastPageInFile(p, src))
    && (Mid(p, bias) < Hi(p, bias) ==> !src.zeroDenied(i))
  }

  lemma {:induction false} OffsetAligned(p: Phdr, src: Source)
    ensures PageAligned(src.offset + PageStart(p.offset)) <==> PageAligned(src.offset)
  {
    if PageAligned(src.offset + PageStart(p.offset)) {
      AlignedSum(src.offset + PageStart(p.offset), PageStart(p.offset));
    }
    if PageAligned(src.offset) {
      AlignedSum(src.offset, PageStart(p.offset));
    }
  }

  /** The segment's file range, shifted to where the library lies in its container, is in the container. */
  predicate InFile(p: Phdr, src: Source) { src.offset + p.offset + p.filesz <= |src.file.bytes| }

  /** The page that holds the end of the file part is backed by the file. */
  predicate LastPageInFile(p: Phdr, src: Source) {
    src.offset + PageStart(p.offset + p.filesz) < PageUp(|src.file.bytes|)
  }

  lemma {:induction false} InFileBacksLastPage(p: Phdr, src: Source)
    requires InFile(p, src) && PageAligned(src.offset) && PageOffset(p.offset + p.filesz) != 0
    ensures LastPageInFile(p, src)
  {
    hide PageStart, PageUp, PageOffset, PageAligned;
    OffsetIs(p.offset + p.filesz);
  }

  /** The file offsets behind the last file page, and the addresses they show at. */
  lemma {:induction false} LastPageOffsets(p: Phdr, bias: U64, src: Source)
    requires Exact(p, bias) && PageAligned(src.offset)
    ensures var base := src.offset + PageStart(p.offset) - Lo(p, bias);
            && PageAligned(base) && FileTo(p, bias) + base == src.offset + p.offset + p.filesz
            && PageStart(FileTo(p, bias)) + base == src.offset + PageStart(p.offset + p.filesz)
  {
    hide PageStart, PageUp, PageOffset, PageAligned;
    var base := src.offset + PageStart(p.offset) - Lo(p, bias);
    AlignedSum(src.offset, PageStart(p.offset));
    AlignedSum(src.offset + PageStart(p.offset), Lo(p, bias));
    RoundingShifts(FileTo(p, bias), base);
    RoundingShifts(p.offset + p.filesz, src.offset);
  }

  /** Clearing the rest of a page that ends inside the file part faults exactly when that page lies wholly
      behind the end of the container. */
  lemma {:induction false} ClearingFaultsExactly(m: Memory, m1: Memory, p: Phdr, bias: U64, src: Source)
    requires Exact(p, bias) && HasContent(m, m1, p, bias, src) && PageAligned(src.offset)
    requires p.write && PageOffset(FileTo(p, bias)) != 0
    ensures ZeroPartialPage(m1, p, bias).Some? <==> LastPageInFile(p, src)
  {
    hide PageStart, PageUp, PageAligned;
    var end, base := FileTo(p, bias), src.offset + PageStart(p.offset) - Lo(p, bias);
    LastPageOf(p, bias);
    LastPageOffsets(p, bias, src);
    AlignedSum(PageStart(end), base);
    OffsetIs(end);
    if LastPageInFile(p, src) {
      SameBoundaryOrNext(PageStart(end) + base, PageUp(|src.file.bytes|));
      forall a: nat | end <= a < Mid(p, bias) ensures Writable(m1, a) {
        assert FileByte(src.file, base + a).Some?;
      }
    } else {
      assert m1(end) == Some(FileCell(src.file, base + end, SegmentProt(p)));
      assert !Writable(m1, end);
    }
  }

  lemma {:induction false} SameBoundaryOrNext(a: int, b: int)
    requires PageAligned(a) && PageAligned(b) && a < b
    ensures a + 4096 <= b
  {
    if b < a + 4096 {
      SameBoundary(b, a);
    }
  }

  lemma {:induction false} NothingToClear(m: Memory, p: Phdr, bias: U64)
    requires Exact(p, bias) && FileLength(p) == 0
    ensures ZeroPartialPage(m, p, bias) == Some(m)
  {
  }

  lemma {:induction false} RequestFits(at: nat, length: nat, offset: nat, end: nat)
    requires length > 0 && PageAligned(at) && PageUp(at + length) == end < 0x1_0000_0000_0000_0000
    ensures MmapOk(at, length, offset) <==> PageAligned(offset)
  {
    hide PageStart, PageUp, PageEnd, Wrap64;
  }

  lemma {:induction false} ContentAccepted(m: Memory, p: Phdr, i: nat, bias: U64, src: Source)
    requires Exact(p, bias)
    ensures FileLength(p) != 0 <==> FromFile(p)
    ensures MapContent(m, p, i, bias, src).Some? <==>
            (FromFile(p) ==> !(p.write && p.exec && src.strict) && PageAligned(src.offset) && !src.fileDenied(i))
  {
    hide PageStart, PageUp, PageEnd, Wrap64;
    OffsetAligned(p, src);
    if FileLength(p) != 0 {
      RequestFits(Lo(p, bias), FileLength(p), src.offset + PageStart(p.offset), Mid(p, bias));
    }
  }

  lemma {:induction false} ZeroPagesAccepted(m: Memory, p: Phdr, i: nat, bias: U64, src: Source)
    requires Exact(p, bias)
    ensures MapZeroPages(m, p, i, bias, src).Some? <==> (Mid(p, bias) < Hi(p, bias) ==> !src.zeroDenied(i))
  {
    hide PageStart, PageUp, PageEnd, Wrap64;
    if Mid(p, bias) < Hi(p, bias) {
      Boundary(Hi(p, bias));
      RequestFits(Mid(p, bias), Hi(p, bias) - Mid(p, bias), 0, Hi(p, bias));
    }
  }

  /** The checks before anything is written. */
  predicate ContentOk(p: Phdr, i: nat, src: Source) {
    && src.size > 0 && p.offset + p.filesz <= src.size
    && (FromFile(p) ==> !(p.write && p.exec && src.strict) && PageAligned(src.offset) && !src.fileDenied(i))
  }

  /** Something of the segment is mapped from the file: it has bytes there, or starts inside a page. */
  predicate FromFile(p: Phdr) { p.filesz > 0 || !PageAligned(p.offset) }

  predicate ClearsPage(p: Phdr, bias: U64) { p.write && PageOffset(FileTo(p, bias)) != 0 }

  /** How a sound segment fares: it crashes the loader exactly when its last file page must be cleared and
      is not in the container, and loads exactly when it passes the checks and does not. */
  lemma {:induction false} LoadsExactly(m: Memory, p: Phdr, i: nat, bias: U64, src: Source)
    requires Sound(p, bias)
    ensures LoadSegment(m, p, i, bias, src).Crashed? <==>
            ContentOk(p, i, src) && ClearsPage(p, bias) && !LastPageInFile(p, src)
    ensures LoadSegment(m, p, i, bias, src).Loaded? <==> Loadable(p, i, bias, src)
  {
    hide PageStart, PageUp, PageEnd, Wrap64;
    SoundIsExact(p, bias);
    ContentAccepted(m, p, i, bias, src);
    var content := MapContent(m, p, i, bias, src);
    if content.Some? {
      if FileLength(p) == 0 {
        NothingToClear(content.value, p, bias);
      } else {
        ContentMapped(m, p, i, bias, src);
        if ClearsPage(p, bias) {
          ClearingFaultsExactly(m, content.value, p, bias, src);
        }
      }
      var zeroed := ZeroPartialPage(content.value, p, bias);
      if zeroed.Some? {
        ZeroPagesAccepted(zeroed.value, p, i, bias, src);
      }
    }
  }

  // ----- The whole table -----

  predicate Load(phdrs: seq<Phdr>, i: nat) { i < |phdrs| && phdrs[i].kind == PT_LOAD }

  ghost predicate TableSound(phdrs: seq<Phdr>, bias: U64) {
    forall i: nat :: Load(phdrs, i) ==> Sound(phdrs[i], bias)
  }

  /** No two loadable segments share a page. */
  ghost predicate PagesApart(phdrs: seq<Phdr>, bias: U64) {
    forall i: nat, j: nat :: i < j && Load(phdrs, i) && Load(phdrs, j) ==>
      Hi(phdrs[i], bias) <= Lo(phdrs[j], bias) || Hi(phdrs[j], bias) <= Lo(phdrs[i], bias)
  }

  predicate Owns(phdrs: seq<Phdr>, i: nat, bias: U64, a: int) { Load(phdrs, i) && InPages(phdrs[i], bias, a) }

  /** The images of the first `n` segments stand in `after`; every other address is as in `before`. */
  ghost predicate ImagesStand(before: Memory, after: Memory, phdrs: seq<Phdr>, n: nat, bias: U64, src: Source) {
    && (forall i: nat, a: nat :: i < n && Owns(phdrs, i, bias, a) ==>
        after(a) == Some(ImageCell(phdrs[i], bias, src, a)))
    && (forall a: nat :: (forall i: nat :: i < n ==> !Owns(phdrs, i, bias, a)) ==> after(a) == before(a))
  }

  /** Of the first `n` segments with the address on their pages, `i` is the last. */
  ghost predicate LastOwner(phdrs: seq<Phdr>, n: nat, i: nat, bias: U64, a: int) {
    i < n && Owns(phdrs, i, bias, a) && forall j: nat :: i < j < n ==> !Owns(phdrs, j, bias, a)
  }

  /** Every address shows the image of the last of the first `n` segments that have it on their pages; an
      address that none of them has is as in `before`. */
  ghost predicate LastImagesShow(before: Memory, after: Memory, phdrs: seq<Phdr>, n: nat, bias: U64, src: Source) {
    && (forall i: nat, a: nat :: LastOwner(phdrs, n, i, bias, a) ==>
        after(a) == Some(ImageCell(phdrs[i], bias, src, a)))
    && (forall a: nat :: (forall i: nat :: i < n ==> !Owns(phdrs, i, bias, a)) ==> after(a) == before(a))
  }

  lemma {:induction false} NotTheLast(phdrs: seq<Phdr>, n: nat, i: nat, bias: U64, a: nat)
    requires n < |phdrs| && LastOwner(phdrs, n + 1, i, bias, a)
    ensures i == n || (!Owns(phdrs, n, bias, a) && LastOwner(phdrs, n, i, bias, a))
  {
    hide InPages;
  }

  lemma {:induction false} OneMoreImage(before: Memory, m: Memory, after: Memory, phdrs: seq<Phdr>, n: nat,
                                        bias: U64, src: Source)
    requires n < |phdrs| && Load(phdrs, n)
    requires LastImagesShow(before, m, phdrs, n, bias, src) && HasImage(m, after, phdrs[n], bias, src)
    ensures LastImagesShow(before, after, phdrs, n + 1, bias, src)
  {
    hide PageStart, PageUp, PageEnd, Wrap64, InPages, LastOwner, ImageCell;
    forall i: nat, a: nat | LastOwner(phdrs, n + 1, i, bias, a)
      ensures Owns(phdrs, i, bias, a) && after(a) == Some(ImageCell(phdrs[i], bias, src, a))
    {
      LastOwnerOwns(phdrs, n + 1, i, bias, a);
      NotTheLast(phdrs, n, i, bias, a);
    }
    forall a: nat | forall i: nat :: i < n + 1 ==> !Owns(phdrs, i, bias, a) ensures after(a) == before(a) {
      assert !Owns(phdrs, n, bias, a);
      assert after(a) == m(a);
    }
  }

  lemma {:induction false} LastOwnerOwns(phdrs: seq<Phdr>, n: nat, i: nat, bias: U64, a: nat)
    requires LastOwner(phdrs, n, i, bias, a)
    ensures Owns(phdrs, i, bias, a)
  {
  }

  lemma {:induction false} SkippedHeader(before: Memory, m: Memory, phdrs: seq<Phdr>, n: nat, bias: U64, src: Source)
    requires n < |phdrs| && !Load(phdrs, n) && LastImagesShow(before, m, phdrs, n, bias, src)
    ensures LastImagesShow(before, m, phdrs, n + 1, bias, src)
  {
    hide PageStart, PageUp, PageEnd, Wrap64, InPages, LastOwner, ImageCell;
    forall i: nat, a: nat | LastOwner(phdrs, n + 1, i, bias, a)
      ensures Owns(phdrs, i, bias, a) && m(a) == Some(ImageCell(phdrs[i], bias, src, a))
    {
      LastOwnerOwns(phdrs, n + 1, i, bias, a);
      NotTheLast(phdrs, n, i, bias, a);
    }
    forall a: nat | forall i: nat :: i < n + 1 ==> !Owns(phdrs, i, bias, a) ensures m(a) == before(a) {
      assert forall i: nat :: i < n ==> !Owns(phdrs, i, bias, a);
    }
  }

  lemma {:induction false} NoImagesYet(m: Memory, phdrs: seq<Phdr>, bias: U64, src: Source)
    ensures LastImagesShow(m, m, phdrs, 0, bias, src)
  {
  }

  /** Segments may share pages: after a successful load of sound segments each address shows the image of the
      last segment that has it on its pages, with that segment's protection, and no other address has changed. */
  lemma {:induction false} LastSegmentShows(m: Memory, phdrs: seq<Phdr>, n: nat, bias: U64, src: Source)
    requires n <= |phdrs| && TableSound(phdrs, bias)
    requires LoadAll(m, phdrs, n, bias, src).Loaded?
    ensures LastImagesShow(m, LoadAll(m, phdrs, n, bias, src).memory, phdrs, n, bias, src)
  {
    hide LoadSegment, LastImagesShow, HasImage, Sound, Exact;
    if n == 0 {
      NoImagesYet(m, phdrs, bias, src);
    } else {
      LastSegmentShows(m, phdrs, n - 1, bias, src);
      var before := LoadAll(m, phdrs, n - 1, bias, src).memory;
      if Load(phdrs, n - 1) {
        SegmentLoads(before, phdrs[n - 1], n - 1, bias, src);
        OneMoreImage(m, before, LoadAll(m, phdrs, n, bias, src).memory, phdrs, n - 1, bias, src);
      } else {
        SkippedHeader(m, before, phdrs, n - 1, bias, src);
      }
    }
  }

  /** Memory image: after a successful load of sound segments on pages of their own, every segment's image
      stands whole, whatever was loaded after it, and no other address has changed. */
  lemma {:induction false} MemoryImage(m: Memory, phdrs: seq<Phdr>, n: nat, bias: U64, src: Source)
    requires n <= |phdrs| && TableSound(phdrs, bias) && PagesApart(phdrs, bias)
    requires LoadAll(m, phdrs, n, bias, src).Loaded?
    ensures ImagesStand(m, LoadAll(m, phdrs, n, bias, src).memory, phdrs, n, bias, src)
  {
    hide LoadAll, ImageCell, TableSound, Lo, Hi;
    LastSegmentShows(m, phdrs, n, bias, src);
    forall i: nat, a: nat | i < n && Owns(phdrs, i, bias, a) ensures LastOwner(phdrs, n, i, bias, a) {
    }
  }

  /** Header `i` asks for nothing, or for a segment that passes the checks. */
  ghost predicate Accepted(phdrs: seq<Phdr>, i: nat, bias: U64, src: Source) {
    Load(phdrs, i) ==> Loadable(phdrs[i], i, bias, src)
  }

  ghost predicate TableInFile(phdrs: seq<Phdr>, src: Source) {
    forall i: nat :: Load(phdrs, i) ==> InFile(phdrs[i], src)
  }

  lemma {:induction false} HeaderLoadsExactly(m: Memory, phdrs: seq<Phdr>, i: nat, bias: U64, src: Source)
    requires Load(phdrs, i) && TableSound(phdrs, bias)
    ensures LoadSegment(m, phdrs[i], i, bias, src).Loaded? <==> Accepted(phdrs, i, bias, src)
    ensures TableInFile(phdrs, src) ==> !LoadSegment(m, phdrs[i], i, bias, src).Crashed?
  {
    hide PageStart, PageUp, PageEnd, Wrap64;
    LoadsExactly(m, phdrs[i], i, bias, src);
    if TableInFile(phdrs, src) && ContentOk(phdrs[i], i, src) && ClearsPage(phdrs[i], bias) {
      InFileNeverFaults(phdrs[i], i, bias, src);
    }
  }

  lemma {:induction false} InFileNeverFaults(p: Phdr, i: nat, bias: U64, src: Source)
    requires Sound(p, bias) && InFile(p, src) && ContentOk(p, i, src) && ClearsPage(p, bias)
    ensures LastPageInFile(p, src)
  {
    hide PageStart, PageUp, PageEnd, Wrap64, PageAligned, PageOffset;
    SoundIsExact(p, bias);
    SameEndOffset(p, bias);
    if !FromFile(p) {
      OffsetIs(FileTo(p, bias));
    } else {
      InFileBacksLastPage(p, src);
    }
  }

  lemma {:induction false} SameEndOffset(p: Phdr, bias: U64)
    requires Exact(p, bias)
    ensures PageOffset(FileTo(p, bias)) == PageOffset(p.offset + p.filesz)
  {
    hide PageStart, PageUp, PageEnd, Wrap64, PageAligned, PageOffset;
    var shift := Lo(p, bias) - PageStart(p.offset);
    AlignedSum(Lo(p, bias), PageStart(p.offset));
    RoundingShifts(p.offset + p.filesz, shift);
  }

  lemma {:induction false} SkippedAccepted(phdrs: seq<Phdr>, i: nat, bias: U64, src: Source)
    requires !Load(phdrs, i)
    ensures Accepted(phdrs, i, bias, src)
  {
  }

  /** The table loads exactly when every segment does; and when the segments lie in the container, nothing
      crashes. */
  lemma {:induction false} TableLoadsExactly(m: Memory, phdrs: seq<Phdr>, n: nat, bias: U64, src: Source)
    requires n <= |phdrs| && TableSound(phdrs, bias)
    ensures TableInFile(phdrs, src) ==> !LoadAll(m, phdrs, n, bias, src).Crashed?
    ensures LoadAll(m, phdrs, n, bias, src).Loaded? <==> forall i: nat :: i < n ==> Accepted(phdrs, i, bias, src)
  {
    hide LoadSegment, Accepted, TableSound, TableInFile;
    if n > 0 {
      TableLoadsExactly(m, phdrs, n - 1, bias, src);
      var before := LoadAll(m, phdrs, n - 1, bias, src);
      if before.Loaded? && Load(phdrs, n - 1) {
        HeaderLoadsExactly(before.memory, phdrs, n - 1, bias, src);
      } else if !Load(phdrs, n - 1) {
        SkippedAccepted(phdrs, n - 1, bias, src);
      }
      assert before.Loaded? <==> forall i: nat :: i < n - 1 ==> Accepted(phdrs, i, bias, src);
    }
  }

  // ----- Two gaps in the checks -----

  /** Ten bytes of file at the start of the second page. */
  const SHORT_DATA: Phdr := Phdr(PT_LOAD, true, true, false, 4096, 4096, 10, 10, 4096)

  /** A page of zeros that is readable, writable and executable. */
  const OPEN_BSS: Phdr := Phdr(PT_LOAD, true, true, true, 0, 4096, 0, 4096, 4096)

  lemma {:induction false} ShortDataFacts(p: Phdr)
    requires p.vaddr == p.offset == 4096 && p.filesz == p.memsz == 10 && p.write
    ensures Sound(p, 0) && FileEnd(p) == 4106 && ClearsPage(p, 0) && FileLength(p) == 10
            && PageStart(p.offset + p.filesz) == 4096
  {
    hide PageStart, PageUp, PageEnd, Wrap64, PageOffset, PageAligned;
    MultipleAligned(0);
    MultipleAligned(1);
    Boundary(4096);
    SameBoundary(PageStart(4106), 4096);
    OffsetIs(4106);
  }

  lemma {:induction false} OpenBssFacts(p: Phdr)
    requires p.vaddr == p.memsz == 4096 && p.offset == p.filesz == 0
    ensures Sound(p, 0) && FileEnd(p) == 0 && !ClearsPage(p, 0) && FileLength(p) == 0
    ensures Lo(p, 0) == Mid(p, 0) == 4096 && Hi(p, 0) == 8192
  {
    hide PageStart, PageUp, PageEnd, Wrap64, PageOffset, PageAligned;
    MultipleAligned(0);
    MultipleAligned(1);
    MultipleAligned(2);
    Boundary(0);
    Boundary(4096);
    Boundary(8192);
  }

  /** The past-end check ignores where the library lies in its container: a segment passes it, and
      clearing its last page faults. */
  lemma {:induction false} PastEndCheckMissesOffset(m: Memory, src: Source)
    requires src.offset == 4096 && src.size == 8192 == |src.file.bytes| && !src.fileDenied(0)
    ensures Sound(SHORT_DATA, 0) && !PastEnd(SHORT_DATA, src) && LoadSegment(m, SHORT_DATA, 0, 0, src).Crashed?
  {
    hide LoadSegment, Sound, Exact, PageStart, PageUp, ClearsPage, FileEnd, FileLength, PageOffset;
    var p := SHORT_DATA;
    ShortDataFacts(p);
    LoadsExactly(m, p, 0, 0, src);
    Boundary(8192);
  }

  /** The check against writable and executable segments does not see one without file content: it loads,
      and its pages are both. */
  lemma {:induction false} WriteAndExecEscapes(m: Memory, src: Source)
    requires src.strict && src.size > 0 && !src.zeroDenied(0)
    ensures WriteAndExec(OPEN_BSS, src) && LoadSegment(m, OPEN_BSS, 0, 0, src).Loaded?
    ensures LoadSegment(m, OPEN_BSS, 0, 0, src).memory(4096) == Some(ZeroCell(Prot(true, true, true)))
  {
    hide LoadSegment, Sound, Exact, PageStart, PageUp, ClearsPage, FileEnd, FileLength, Lo, Mid, Hi, PageOffset;
    var p := OPEN_BSS;
    OpenBssFacts(p);
    LoadsExactly(m, p, 0, 0, src);
    SegmentLoads(m, p, 0, 0, src);
    assert InPages(p, 0, 4096);
  }

  /** In a strict load, a writable and executable segment gets through exactly when nothing of it comes
      from the file. */
  lemma {:induction false} WriteAndExecExactly(m: Memory, p: Phdr, i: nat, bias: U64, src: Source)
    requires Sound(p, bias) && p.write && p.exec && src.strict && src.size > 0 && p.offset + p.filesz <= src.size
             && !src.zeroDenied(i)
    ensures LoadSegment(m, p, i, bias, src).Loaded? <==> PageOffset(p.offset) == 0 && p.filesz == 0
  {
    hide PageStart, PageUp, PageEnd, Wrap64;
    SoundIsExact(p, bias);
    LoadsExactly(m, p, i, bias, src);
    OffsetIs(p.offset);
    if FileLength(p) == 0 {
      NothingToClear(m, p, bias);
      Boundary(FileTo(p, bias));
    }
  }

  // ----- What the image says -----

  /** File byte p_offset + k of a segment is at load_bias + p_vaddr + k. */
  lemma {:induction false} FileBytesInPlace(p: Phdr, bias: U64, src: Source, k: nat)
    requires Sound(p, bias) && InFile(p, src) && k < p.filesz
    ensures InPages(p, bias, SegStart(p, bias) + k)
    ensures ImageCell(p, bias, src, SegStart(p, bias) + k).byte == Some(src.file.bytes[src.offset + p.offset + k])
    ensures ImageCell(p, bias, src, SegStart(p, bias) + k).prot == SegmentProt(p)
  {
    SoundIsExact(p, bias);
  }

  /** On a page shared with a later segment `q` that lies at the same distance from its file offset, byte `k` of
      `p`'s file part survives exactly when it is before the end of `q`'s file part, or `q` is not writable and
      the byte is on `q`'s last file page, or it was zero anyway. */
  lemma {:induction false} SharedPageKeeps(p: Phdr, q: Phdr, bias: U64, src: Source, k: nat)
    requires Sound(p, bias) && Sound(q, bias) && InFile(p, src) && k < p.filesz
    requires SegStart(p, bias) - p.offset == SegStart(q, bias) - q.offset && InPages(q, bias, SegStart(p, bias) + k)
    ensures var a, b := SegStart(p, bias) + k, src.file.bytes[src.offset + p.offset + k];
            ImageCell(q, bias, src, a).byte == Some(b) <==>
            a < FileTo(q, bias) || (!q.write && a < Mid(q, bias)) || b == 0
  {
    hide PageUp, PageEnd, Wrap64, SegEnd, SegFileEnd, FileEnd, FileLength, MmapOk, SegStart;
    SoundIsExact(q, bias);
    var a := SegStart(p, bias) + k;
    if FileTo(q, bias) <= a < Mid(q, bias) {
      if PageOffset(FileTo(q, bias)) == 0 {
        Boundary(FileTo(q, bias));
      } else {
        RoundingIsTight(FileTo(q, bias), PageStart(FileTo(q, bias)));
      }
    }
  }

  /** Behind the file content a segment is zero: always from the next page on, and before it exactly when
      the segment is writable or the file happens to hold a zero there. */
  lemma {:induction false} ZerosBehindFile(p: Phdr, bias: U64, src: Source, k: nat)
    requires Sound(p, bias) && p.filesz <= k < p.memsz
    ensures InPages(p, bias, SegStart(p, bias) + k)
    ensures ImageCell(p, bias, src, SegStart(p, bias) + k).byte == Some(0) <==>
            (p.write || SegStart(p, bias) + k >= Mid(p, bias)
             || FileByte(src.file, src.offset + p.offset + k) == Some(0))
  {
    SoundIsExact(p, bias);
    SameOffset(p, bias);
    BehindFile(p, bias, k);
  }

  predicate ImageShows(p: Phdr, bias: U64, src: Source, a: nat, b: Byte) {
    InPages(p, bias, a) && ImageCell(p, bias, src, a).byte == Some(b)
  }

  /** One byte of file and two of memory, not writable, in a file whose next byte is 8: the second byte of the
      segment shows that 8. */
  lemma {:induction false} TailShowsFile(p: Phdr, src: Source)
    requires p == Phdr(PT_LOAD, true, false, false, 0, 4096, 1, 2, 4096) && src.offset == 0 && src.file.bytes == [7, 8]
    ensures Sound(p, 0) && ImageShows(p, 0, src, 4097, 8)
  {
    hide PageStart, PageUp, PageEnd, Wrap64, PageOffset, PageAligned;
    MultipleAligned(0);
    MultipleAligned(1);
    MultipleAligned(2);
    Boundary(0);
    Boundary(4096);
    Boundary(8192);
    UpIs(4097, 8192);
    UpIs(4098, 8192);
    assert SegStart(p, 0) == 4096;
  }

  lemma {:induction false} BehindFile(p: Phdr, bias: U64, k: nat)
    requires Exact(p, bias) && p.filesz <= k < p.memsz
    ensures InPages(p, bias, SegStart(p, bias) + k)
    ensures SegStart(p, bias) + k < Mid(p, bias) ==>
            PageOffset(FileTo(p, bias)) != 0 && SegStart(p, bias) + k >= PageStart(FileTo(p, bias))
  {
    if PageOffset(FileTo(p, bias)) == 0 {
      Boundary(FileTo(p, bias));
    }
  }

  // ----- Inside the reservation -----

  /** The bias the reader computes from where the reservation starts. */
  function Bias(start: nat, phdrs: seq<Phdr>): U64
    requires start < 0x1_0000_0000_0000_0000
  {
    Wrap64(start - MinPage(phdrs))
  }

  lemma {:induction false} StartAt(start: nat, phdrs: seq<Phdr>, p: Phdr)
    requires start < 0x1_0000_0000_0000_0000 && MinPage(phdrs) <= p.vaddr
             && start + (p.vaddr - MinPage(phdrs)) < 0x1_0000_0000_0000_0000
    ensures SegStart(p, Bias(start, phdrs)) == start + (p.vaddr - MinPage(phdrs))
  {
  }

  /** With the reservation page-aligned and inside the address space, every segment's pages lie in it. */
  lemma {:induction false} PagesInReservation(start: nat, phdrs: seq<Phdr>, i: nat)
    requires NoneWraps(phdrs) && HasLoad(phdrs, |phdrs|) && Load(phdrs, i)
    requires PageAligned(start) && start + LoadSize(phdrs) < 0x1_0000_0000_0000_0000
    ensures var bias := Bias(start, phdrs);
            && SegStart(phdrs[i], bias) == start + (phdrs[i].vaddr - MinPage(phdrs))
            && PageAligned(bias)
            && start <= Lo(phdrs[i], bias) && Hi(phdrs[i], bias) <= start + LoadSize(phdrs)
  {
    hide PageStart, PageUp, PageEnd, Wrap64;
    ExtentCovers(phdrs);
    var p := phdrs[i];
    assert MinPage(phdrs) <= p.vaddr && p.vaddr + p.memsz <= MaxPage(phdrs);
    StartAt(start, phdrs, p);
    BiasAligned(start, phdrs);
    EndAligned(start, phdrs);
    RoundingIsTight(SegStart(p, Bias(start, phdrs)), start);
    RoundingIsTight(SegStart(p, Bias(start, phdrs)) + p.memsz, start + LoadSize(phdrs));
  }

  lemma {:induction false} BiasAligned(start: nat, phdrs: seq<Phdr>)
    requires PageAligned(start) && start < 0x1_0000_0000_0000_0000
    ensures PageAligned(Bias(start, phdrs))
  {
    hide PageStart, PageUp, PageEnd;
    AlignedSum(start, MinPage(phdrs));
    AlignedSum(start - MinPage(phdrs), 0x1_0000_0000_0000_0000);
  }

  lemma {:induction false} EndAligned(start: nat, phdrs: seq<Phdr>)
    requires NoneWraps(phdrs) && HasLoad(phdrs, |phdrs|) && PageAligned(start)
    ensures PageAligned(start + LoadSize(phdrs))
  {
    ExtentCovers(phdrs);
    AlignedSum(MaxPage(phdrs), MinPage(phdrs));
    AlignedSum(start, LoadSize(phdrs));
  }

  /** A segment whose header is well-formed, before it is known where it will be loaded. */
  predicate WellFormed(p: Phdr) {
    p.filesz <= p.memsz && PageOffset(p.vaddr) == PageOffset(p.offset) && NoWrap(p)
      && p.offset + p.filesz < 0x1_0000_0000_0000_0000
  }

  ghost predicate TableWellFormed(phdrs: seq<Phdr>) { forall i: nat :: Load(phdrs, i) ==> WellFormed(phdrs[i]) }

  lemma {:induction false} ReservedSound(start: nat, phdrs: seq<Phdr>, i: nat)
    requires NoneWraps(phdrs) && HasLoad(phdrs, |phdrs|) && Load(phdrs, i) && WellFormed(phdrs[i])
    requires PageAligned(start) && start + LoadSize(phdrs) < 0x1_0000_0000_0000_0000
    ensures Sound(phdrs[i], Bias(start, phdrs))
  {
    hide PageStart, PageUp, PageEnd, Wrap64;
    PagesInReservation(start, phdrs, i);
    EndAligned(start, phdrs);
    BelowTop(SegStart(phdrs[i], Bias(start, phdrs)) + phdrs[i].memsz, start + LoadSize(phdrs));
  }

  lemma {:induction false} BelowTop(x: nat, end: nat)
    requires x <= end < 0x1_0000_0000_0000_0000 && PageAligned(end)
    ensures x + 4095 < 0x1_0000_0000_0000_0000
  {
  }

  lemma {:induction false} ReservedTableSound(start: nat, phdrs: seq<Phdr>)
    requires TableWellFormed(phdrs) && NoneWraps(phdrs) && HasLoad(phdrs, |phdrs|)
    requires PageAligned(start) && start + LoadSize(phdrs) < 0x1_0000_0000_0000_0000
    ensures TableSound(phdrs, Bias(start, phdrs))
  {
    hide PageStart, PageUp, PageEnd, Wrap64;
    forall i: nat | Load(phdrs, i) ensures Sound(phdrs[i], Bias(start, phdrs)) {
      ReservedSound(start, phdrs, i);
    }
  }

  // ----- Frames -----

  /** Nothing outside [lo, hi) differs. */
  ghost predicate SameOutside(before: Memory, after: Memory, lo: nat, hi: nat) {
    forall a: nat :: a < lo || hi <= a ==> after(a) == before(a)
  }

  lemma {:induction false} SameOutsideWidens(m: Memory, m1: Memory, m2: Memory, lo: nat, hi: nat, outerLo: nat,
                                             outerHi: nat)
    requires SameOutside(m, m1, outerLo, outerHi) && SameOutside(m1, m2, lo, hi) && outerLo <= lo && hi <= outerHi
    ensures SameOutside(m, m2, outerLo, outerHi)
  {
  }

  /** Whether it is loaded, refused or crashes half way, a sound segment changes only its own pages. */
  lemma {:induction false} SegmentStaysInside(m: Memory, p: Phdr, i: nat, bias: U64, src: Source)
    requires Exact(p, bias)
    ensures SameOutside(m, LoadSegment(m, p, i, bias, src).memory, Lo(p, bias), Hi(p, bias))
  {
    hide PageStart, PageUp, PageEnd, Wrap64, MapContent, ZeroPartialPage, MapZeroPages;
    var content := MapContent(m, p, i, bias, src);
    if content.Some? {
      ContentMapped(m, p, i, bias, src);
      var zeroed := ZeroPartialPage(content.value, p, bias);
      if zeroed.Some? {
        LastPageCleared(m, content.value, p, bias, src);
        if MapZeroPages(zeroed.value, p, i, bias, src).Some? {
          ZeroPagesMapped(m, zeroed.value, p, i, bias, src);
        }
      }
    }
  }

  /** However a load of sound segments inside [lo, hi) ends, nothing outside has changed. */
  lemma {:induction false} TableStaysInside(m: Memory, phdrs: seq<Phdr>, n: nat, bias: U64, src: Source, lo: nat,
                                            hi: nat)
    requires n <= |phdrs| && TableSound(phdrs, bias)
    requires forall i: nat :: Load(phdrs, i) ==> lo <= Lo(phdrs[i], bias) && Hi(phdrs[i], bias) <= hi
    ensures SameOutside(m, LoadAll(m, phdrs, n, bias, src).memory, lo, hi)
  {
    hide LoadSegment, Sound, Exact, PageStart, PageUp;
    if n > 0 {
      TableStaysInside(m, phdrs, n - 1, bias, src, lo, hi);
      var before := LoadAll(m, phdrs, n - 1, bias, src);
      if before.Loaded? && Load(phdrs, n - 1) {
        var p := phdrs[n - 1];
        SoundIsExact(p, bias);
        SegmentStaysInside(before.memory, p, n - 1, bias, src);
        SameOutsideWidens(m, before.memory, LoadSegment(before.memory, p, n - 1, bias, src).memory,
                          Lo(p, bias), Hi(p, bias), lo, hi);
      }
    }
  }

  /** Loading a well-formed table, whatever the outcome, touches nothing outside its reservation. */
  lemma {:induction false} NothingOutside(m: Memory, start: nat, phdrs: seq<Phdr>, src: Source)
    requires TableWellFormed(phdrs) && HasLoad(phdrs, |phdrs|)
    requires PageAligned(start) && start + LoadSize(phdrs) < 0x1_0000_0000_0000_0000
    ensures SameOutside(m, LoadAll(m, phdrs, |phdrs|, Bias(start, phdrs), src).memory, start, start + LoadSize(phdrs))
  {
    hide PageStart, PageUp, PageEnd, Wrap64, Sound, Lo, Hi, WellFormed;
    WellFormedNeverWraps(phdrs);
    ReservedTableSound(start, phdrs);
    forall i: nat | Load(phdrs, i)
      ensures start <= Lo(phdrs[i], Bias(start, phdrs)) && Hi(phdrs[i], Bias(start, phdrs)) <= start + LoadSize(phdrs)
    {
      PagesInReservation(start, phdrs, i);
    }
    TableStaysInside(m, phdrs, |phdrs|, Bias(start, phdrs), src, start, start + LoadSize(phdrs));
  }

  lemma {:induction false} WellFormedNeverWraps(phdrs: seq<Phdr>)
    requires TableWellFormed(phdrs)
    ensures NoneWraps(phdrs)
  {
    forall i | 0 <= i < |phdrs| && phdrs[i].kind == PT_LOAD ensures NoWrap(phdrs[i]) {
      assert Load(phdrs, i);
    }
  }
}
