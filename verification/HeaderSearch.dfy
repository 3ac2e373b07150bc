/** `FindPhdr` and `CheckPhdr`: where the program header table is in the loaded image. */
module HeaderSearch {
  import opened Basics
  import opened Paging
  import opened ProcessMemory
  import opened LoadExtent
  import opened SegmentLoader
  import opened SegmentImage

  const EHDR_SIZE: nat := 64
  const PHDR_SIZE: nat := 56
  const PHOFF_AT: nat := 32    // of e_phoff in the ELF header

  // ----- The searches -----

  /** The first header of a kind from `from` on. */
  function First(phdrs: seq<Phdr>, kind: U32, from: nat): (r: Option<nat>)
    requires from <= |phdrs|
    ensures r.Some? ==> from <= r.value < |phdrs| && phdrs[r.value].kind == kind
    ensures r.Some? ==> forall i :: from <= i < r.value ==> phdrs[i].kind != kind
    ensures r == None ==> forall i :: from <= i < |phdrs| ==> phdrs[i].kind != kind
    decreases |phdrs| - from
  {
    if from == |phdrs| then None else if phdrs[from].kind == kind then Some(from) else First(phdrs, kind, from + 1)
  }

  datatype Search = Found(loaded: U64) | Missing | ReadFault

  function TableSize(phdrs: seq<Phdr>): nat { PHDR_SIZE * |phdrs| }

  /** [loaded, end) lies in the file part of segment `i`. */
  predicate Contains(phdrs: seq<Phdr>, i: nat, bias: U64, loaded: U64, end: U64) {
    Load(phdrs, i) && SegStart(phdrs[i], bias) <= loaded && end <= SegFileEnd(phdrs[i], bias)
  }

  /** `CheckPhdr`; the read program header table has at most 1170 entries. */
  predicate CheckPhdr(phdrs: seq<Phdr>, bias: U64, loaded: U64)
    requires TableSize(phdrs) <= 65536
  {
    var end := Wrap64(loaded + TableSize(phdrs));
    exists i :: 0 <= i < |phdrs| && Contains(phdrs, i, bias, loaded, end)
  }

  function Checked(phdrs: seq<Phdr>, bias: U64, loaded: U64): Search
    requires TableSize(phdrs) <= 65536
  {
    if CheckPhdr(phdrs, bias, loaded) then Found(loaded) else Missing
  }

  function FindPhdr(m: Memory, phdrs: seq<Phdr>, bias: U64): Search
    requires TableSize(phdrs) <= 65536
  {
    var phdr, load := First(phdrs, PT_PHDR, 0), First(phdrs, PT_LOAD, 0);
    if phdr.Some? then Checked(phdrs, bias, Wrap64(bias + phdrs[phdr.value].vaddr))
    else if load == None || phdrs[load.value].offset != 0 then Missing
    else
      var ehdr := Wrap64(bias + phdrs[load.value].vaddr);
      var word := BytesAt(m, ehdr + PHOFF_AT, 8);
      if word == None then ReadFault else Checked(phdrs, bias, Wrap64(ehdr + U64At(word.value, 0)))
  }

  method FindFirst(phdrs: seq<Phdr>, kind: U32) returns (r: Option<nat>)
    ensures r == First(phdrs, kind, 0)
  {
    for i := 0 to |phdrs|
      invariant First(phdrs, kind, 0) == First(phdrs, kind, i)
    {
      if phdrs[i].kind == kind {
        return Some(i);
      }
    }
    r := None;
  }

  method CheckLoaded(phdrs: seq<Phdr>, bias: U64, loaded: U64) returns (ok: bool)
    requires TableSize(phdrs) <= 65536
    ensures ok == CheckPhdr(phdrs, bias, loaded)
  {
    var end := Wrap64(loaded + TableSize(phdrs));
    for i := 0 to |phdrs|
      invariant forall k :: 0 <= k < i ==> !Contains(phdrs, k, bias, loaded, end)
    {
      if phdrs[i].kind != PT_LOAD {
        continue;
      }
      var segStart, segEnd := SegStart(phdrs[i], bias), SegFileEnd(phdrs[i], bias);
      if segStart <= loaded && end <= segEnd {
        assert Contains(phdrs, i, bias, loaded, end);
        return true;
      }
    }
    ok := false;
  }

  method Find(process: Process, phdrs: seq<Phdr>, bias: U64) returns (r: Search)
    requires TableSize(phdrs) <= 65536
    ensures r == FindPhdr(process.memory, phdrs, bias)
  {
    hide CheckPhdr;
    var i := FindFirst(phdrs, PT_PHDR);
    if i.Some? {
      var loaded := Wrap64(bias + phdrs[i.value].vaddr);
      var ok := CheckLoaded(phdrs, bias, loaded);
      return if ok then Found(loaded) else Missing;
    }
    i := FindFirst(phdrs, PT_LOAD);
    if i.Some? && phdrs[i.value].offset == 0 {
      var ehdr := Wrap64(bias + phdrs[i.value].vaddr);
      var word := BytesAt(process.memory, ehdr + PHOFF_AT, 8);
      if word == None {
        return ReadFault;
      }
      var loaded := Wrap64(ehdr + U64At(word.value, 0));
      var ok := CheckLoaded(phdrs, bias, loaded);
      return if ok then Found(loaded) else Missing;
    }
    r := Missing;
  }

  // ----- The loaded table -----

  /** What the reader read from the file: the offset in the ELF header, and the bytes of the table there. */
  function HeaderOffset(src: Source): U64
    requires src.offset + EHDR_SIZE <= |src.file.bytes|
  {
    U64At(src.file.bytes[src.offset + PHOFF_AT..src.offset + PHOFF_AT + 8], 0)
  }

  function TableBytes(phdrs: seq<Phdr>, src: Source): seq<Byte>
    requires src.offset + EHDR_SIZE <= |src.file.bytes|
    requires src.offset + HeaderOffset(src) + TableSize(phdrs) <= |src.file.bytes|
  {
    src.file.bytes[src.offset + HeaderOffset(src)..src.offset + HeaderOffset(src) + TableSize(phdrs)]
  }

  /** No PT_PHDR; and the first loadable segment starts at file offset 0, is readable, and covers the header
      and the table. */
  predicate Covered(phdrs: seq<Phdr>, i: nat, src: Source)
    requires src.offset + EHDR_SIZE <= |src.file.bytes|
  {
    && First(phdrs, PT_PHDR, 0) == None && First(phdrs, PT_LOAD, 0) == Some(i)
    && phdrs[i].offset == 0 && phdrs[i].read
    && EHDR_SIZE <= phdrs[i].filesz && HeaderOffset(src) + TableSize(phdrs) <= phdrs[i].filesz
  }

  lemma {:induction false} FileByteLoaded(before: Memory, after: Memory, phdrs: seq<Phdr>, i: nat, bias: U64,
                                          src: Source, k: nat)
    requires TableSound(phdrs, bias) && ImagesStand(before, after, phdrs, |phdrs|, bias, src)
    requires Load(phdrs, i) && phdrs[i].read && InFile(phdrs[i], src) && k < phdrs[i].filesz
    ensures ByteIs(after, SegStart(phdrs[i], bias) + k, src.file.bytes[src.offset + phdrs[i].offset + k])
  {
    hide PageStart, PageUp, PageEnd, Wrap64, ImageCell, Sound, SegStart, InPages;
    FileBytesInPlace(phdrs[i], bias, src, k);
    assert Owns(phdrs, i, bias, SegStart(phdrs[i], bias) + k);
  }

  /** Any stretch of a loaded segment's file part can be read and holds the file's bytes. */
  lemma {:induction false} FileStretchLoaded(before: Memory, after: Memory, phdrs: seq<Phdr>, i: nat, bias: U64,
                                             src: Source, from: nat, to: nat)
    requires TableSound(phdrs, bias) && ImagesStand(before, after, phdrs, |phdrs|, bias, src)
    requires Load(phdrs, i) && phdrs[i].read && InFile(phdrs[i], src)
    requires from <= to <= phdrs[i].filesz
    ensures ReadsAs(after, SegStart(phdrs[i], bias) + from,
                    src.file.bytes[src.offset + phdrs[i].offset + from..src.offset + phdrs[i].offset + to])
  {
    hide PageStart, PageUp, PageEnd, Wrap64, ReadsAs, ImageCell, Sound, SegStart, ImagesStand, InPages, ByteIs,
         TableSound;
    var p := phdrs[i];
    var bytes := src.file.bytes[src.offset + p.offset + from..src.offset + p.offset + to];
    forall k: nat | k < |bytes| ensures ByteIs(after, SegStart(p, bias) + from + k, bytes[k]) {
      FileByteLoaded(before, after, phdrs, i, bias, src, from + k);
    }
    ReadsBytewise(after, SegStart(p, bias) + from, bytes);
  }

  /** Loaded header table: after the segments are loaded, the search finds a table in memory with exactly
      the bytes of the table that was read from the file. */
  lemma {:induction false} LoadedTable(before: Memory, after: Memory, phdrs: seq<Phdr>, i: nat, bias: U64, src: Source)
    requires TableSize(phdrs) <= 65536 && TableSound(phdrs, bias)
    requires ImagesStand(before, after, phdrs, |phdrs|, bias, src)
    requires src.offset + EHDR_SIZE <= |src.file.bytes| && Covered(phdrs, i, src) && InFile(phdrs[i], src)
    ensures FindPhdr(after, phdrs, bias) == Found(SegStart(phdrs[i], bias) + HeaderOffset(src))
    ensures ReadsAs(after, SegStart(phdrs[i], bias) + HeaderOffset(src), TableBytes(phdrs, src))
  {
    hide PageStart, PageUp, PageEnd, Wrap64, ImagesStand, InPages, ImageCell, ReadsAs, SegStart, SegFileEnd, CheckPhdr,
         U64At;
    var p := phdrs[i];
    var start := SegStart(p, bias);
    FileStretchLoaded(before, after, phdrs, i, bias, src, PHOFF_AT, PHOFF_AT + 8);
    FileStretchLoaded(before, after, phdrs, i, bias, src, HeaderOffset(src), HeaderOffset(src) + TableSize(phdrs));
    OffsetInMemory(after, start, src);
    TableInSegment(phdrs, i, bias, HeaderOffset(src));
    StartCommutes(p, bias);
  }

  /** Without a PT_PHDR, and with a first loadable segment that does not start at file offset 0, or none at all,
      nothing is found, and no memory is read. */
  lemma {:induction false} NothingToFind(m: Memory, phdrs: seq<Phdr>, bias: U64)
    requires TableSize(phdrs) <= 65536
    requires forall k :: 0 <= k < |phdrs| ==> phdrs[k].kind != PT_PHDR
    requires forall i :: 0 <= i < |phdrs| && phdrs[i].kind == PT_LOAD ==>
               phdrs[i].offset != 0 || exists j :: 0 <= j < i && phdrs[j].kind == PT_LOAD
    ensures FindPhdr(m, phdrs, bias) == Missing
  {
    hide CheckPhdr;
    var load := First(phdrs, PT_LOAD, 0);
    if load.Some? {
      assert phdrs[load.value].kind == PT_LOAD;
    }
  }

  /** Without a PT_PHDR, and with a readable first segment that starts at file offset 0 and covers the ELF header,
      the search follows the e_phoff of the file, wherever that leads. */
  lemma {:induction false} FollowsHeaderOffset(before: Memory, after: Memory, phdrs: seq<Phdr>, i: nat, bias: U64,
                                               src: Source)
    requires TableSize(phdrs) <= 65536 && TableSound(phdrs, bias)
    requires ImagesStand(before, after, phdrs, |phdrs|, bias, src)
    requires First(phdrs, PT_PHDR, 0) == None && First(phdrs, PT_LOAD, 0) == Some(i)
    requires phdrs[i].offset == 0 && phdrs[i].read && EHDR_SIZE <= phdrs[i].filesz && InFile(phdrs[i], src)
    ensures var loaded: U64 := (SegStart(phdrs[i], bias) + HeaderOffset(src)) % 0x1_0000_0000_0000_0000;
            FindPhdr(after, phdrs, bias) == if CheckPhdr(phdrs, bias, loaded) then Found(loaded) else Missing
  {
    hide PageStart, PageUp, PageEnd, ImagesStand, InPages, ImageCell, ReadsAs, SegStart, SegFileEnd, CheckPhdr, U64At,
         Wrap64;
    FileStretchLoaded(before, after, phdrs, i, bias, src, PHOFF_AT, PHOFF_AT + 8);
    OffsetInMemory(after, SegStart(phdrs[i], bias), src);
    StartCommutes(phdrs[i], bias);
    WrapsOnce(SegStart(phdrs[i], bias), HeaderOffset(src));
  }

  lemma {:induction false} WrapsOnce(x: U64, y: U64)
    ensures Wrap64(x + y) == (x + y) % 0x1_0000_0000_0000_0000
  {
  }

  /** PT_PHDR number `k` is the first, and the table it announces lies in the file part of the readable segment
      `i`, by its address. */
  predicate Announced(phdrs: seq<Phdr>, k: nat, i: nat) {
    && First(phdrs, PT_PHDR, 0) == Some(k) && Load(phdrs, i) && phdrs[i].read
    && phdrs[i].vaddr <= phdrs[k].vaddr
    && phdrs[k].vaddr + TableSize(phdrs) <= phdrs[i].vaddr + phdrs[i].filesz
  }

  /** With a PT_PHDR the table is found at the bias plus p_vaddr, without wrap-around of its own; and what is
      there is the file, as far behind the segment's p_offset as p_vaddr is behind the segment's. */
  lemma {:induction false} AnnouncedTable(before: Memory, after: Memory, phdrs: seq<Phdr>, k: nat, i: nat, bias: U64,
                                          src: Source)
    requires TableSize(phdrs) <= 65536 && TableSound(phdrs, bias)
    requires ImagesStand(before, after, phdrs, |phdrs|, bias, src)
    requires Announced(phdrs, k, i) && InFile(phdrs[i], src)
    ensures var p, from := phdrs[i], phdrs[k].vaddr - phdrs[i].vaddr;
            var at := src.offset + p.offset + from;
            && FindPhdr(after, phdrs, bias) == Found(SegStart(p, bias) + from)
            && (SegStart(p, bias) + from - phdrs[k].vaddr) % 0x1_0000_0000_0000_0000 == bias
            && ReadsAs(after, SegStart(p, bias) + from, src.file.bytes[at..at + TableSize(phdrs)])
  {
    hide PageStart, PageUp, PageEnd, Wrap64, ImagesStand, InPages, ImageCell, ReadsAs, SegStart, SegFileEnd, CheckPhdr,
         U64At;
    var from := phdrs[k].vaddr - phdrs[i].vaddr;
    FileStretchLoaded(before, after, phdrs, i, bias, src, from, from + TableSize(phdrs));
    TableInSegment(phdrs, i, bias, from);
    assert Sound(phdrs[i], bias);
    StartBehind(phdrs[i], bias, phdrs[k].vaddr);
  }

  /** Address `vaddr`, which is in the segment, is as far behind the segment's start in memory as in the table. */
  lemma {:induction false} StartBehind(p: Phdr, bias: U64, vaddr: U64)
    requires p.vaddr <= vaddr && SegStart(p, bias) + (vaddr - p.vaddr) < 0x1_0000_0000_0000_0000
    ensures Wrap64(bias + vaddr) == SegStart(p, bias) + (vaddr - p.vaddr)
    ensures (SegStart(p, bias) + (vaddr - p.vaddr) - vaddr) % 0x1_0000_0000_0000_0000 == bias
  {
  }

  /** PT_PHDR agrees with the ELF header: it announces the table at e_phoff, at the congruent address. */
  predicate AnnouncesHeaders(phdrs: seq<Phdr>, k: nat, i: nat, src: Source)
    requires src.offset + EHDR_SIZE <= |src.file.bytes|
  {
    && Announced(phdrs, k, i) && phdrs[k].offset == HeaderOffset(src)
    && phdrs[k].vaddr - phdrs[i].vaddr == phdrs[k].offset - phdrs[i].offset
  }

  /** Then the search finds the table that was read from the file. */
  lemma {:induction false} AnnouncedHeaders(before: Memory, after: Memory, phdrs: seq<Phdr>, k: nat, i: nat,
                                            bias: U64, src: Source)
    requires TableSize(phdrs) <= 65536 && TableSound(phdrs, bias)
    requires ImagesStand(before, after, phdrs, |phdrs|, bias, src)
    requires src.offset + EHDR_SIZE <= |src.file.bytes|
    requires AnnouncesHeaders(phdrs, k, i, src) && InFile(phdrs[i], src)
    ensures FindPhdr(after, phdrs, bias) == Found(SegStart(phdrs[i], bias) + (phdrs[k].vaddr - phdrs[i].vaddr))
    ensures src.offset + HeaderOffset(src) + TableSize(phdrs) <= |src.file.bytes|
    ensures ReadsAs(after, SegStart(phdrs[i], bias) + (phdrs[k].vaddr - phdrs[i].vaddr), TableBytes(phdrs, src))
  {
    hide ImagesStand, ReadsAs, SegStart, U64At, FindPhdr, TableSound;
    AnnouncedTable(before, after, phdrs, k, i, bias, src);
  }

  lemma {:induction false} StartCommutes(p: Phdr, bias: U64)
    ensures Wrap64(bias + p.vaddr) == SegStart(p, bias)
  {
  }

  lemma {:induction false} OffsetInMemory(m: Memory, start: nat, src: Source)
    requires src.offset + EHDR_SIZE <= |src.file.bytes|
    requires ReadsAs(m, start + PHOFF_AT, src.file.bytes[src.offset + PHOFF_AT..src.offset + PHOFF_AT + 8])
    ensures var word := BytesAt(m, start + PHOFF_AT, 8); word.Some? && U64At(word.value, 0) == HeaderOffset(src)
  {
    hide U64At;
    assert |src.file.bytes[src.offset + PHOFF_AT..src.offset + PHOFF_AT + 8]| == 8;
  }

  lemma {:induction false} TableInSegment(phdrs: seq<Phdr>, i: nat, bias: U64, offset: U64)
    requires TableSize(phdrs) <= 65536 && TableSound(phdrs, bias) && Load(phdrs, i)
    requires offset + TableSize(phdrs) <= phdrs[i].filesz
    ensures var loaded := SegStart(phdrs[i], bias) + offset;
            loaded < 0x1_0000_0000_0000_0000 && Wrap64(loaded) == loaded && CheckPhdr(phdrs, bias, loaded)
  {
    hide SegStart;
    assert Sound(phdrs[i], bias);
    var loaded: U64 := SegStart(phdrs[i], bias) + offset;
    var end := Wrap64(loaded + TableSize(phdrs));
    assert SegFileEnd(phdrs[i], bias) == SegStart(phdrs[i], bias) + phdrs[i].filesz;
    assert Contains(phdrs, i, bias, loaded, end);
  }

  /** [loaded, loaded + size) lies in the file part of segment `i`, without wrap-around. */
  predicate TrulyContains(phdrs: seq<Phdr>, i: nat, bias: U64, loaded: nat, size: nat) {
    Load(phdrs, i) && SegStart(phdrs[i], bias) <= loaded && loaded + size <= FileTo(phdrs[i], bias)
  }

  /** Unless the end of the table wraps around, the check passes exactly for a table that lies in the file
      part of some segment. */
  lemma {:induction false} CheckedExactly(phdrs: seq<Phdr>, bias: U64, loaded: U64)
    requires TableSize(phdrs) <= 65536 && TableSound(phdrs, bias) && loaded + TableSize(phdrs) < 0x1_0000_0000_0000_0000
    ensures CheckPhdr(phdrs, bias, loaded) <==> exists i: nat :: TrulyContains(phdrs, i, bias, loaded, TableSize(phdrs))
  {
    hide SegStart;
    var end := Wrap64(loaded + TableSize(phdrs));
    if CheckPhdr(phdrs, bias, loaded) {
      var i :| 0 <= i < |phdrs| && Contains(phdrs, i, bias, loaded, end);
      assert Sound(phdrs[i], bias);
      assert TrulyContains(phdrs, i, bias, loaded, TableSize(phdrs));
    }
    if i: nat :| TrulyContains(phdrs, i, bias, loaded, TableSize(phdrs)) {
      assert Sound(phdrs[i], bias);
      assert Contains(phdrs, i, bias, loaded, end);
    }
  }

  /** The end that wraps around is not behind segment `i`'s, and the segment starts early enough: what the
      check then takes for containment. */
  predicate PassesWrapped(phdrs: seq<Phdr>, i: nat, bias: U64, loaded: nat, size: nat) {
    Load(phdrs, i) && SegStart(phdrs[i], bias) <= loaded
      && loaded + size - 0x1_0000_0000_0000_0000 <= FileTo(phdrs[i], bias)
  }

  /** When the end does wrap around, the check passes exactly when some segment passes so, and no segment
      contains the table. */
  lemma {:induction false} WrappedTablePasses(phdrs: seq<Phdr>, bias: U64, loaded: U64)
    requires TableSize(phdrs) <= 65536 && TableSound(phdrs, bias)
             && loaded + TableSize(phdrs) >= 0x1_0000_0000_0000_0000
    ensures CheckPhdr(phdrs, bias, loaded) <==> exists i: nat :: PassesWrapped(phdrs, i, bias, loaded, TableSize(phdrs))
    ensures !exists i: nat :: TrulyContains(phdrs, i, bias, loaded, TableSize(phdrs))
  {
    hide SegStart;
    var end := Wrap64(loaded + TableSize(phdrs));
    if CheckPhdr(phdrs, bias, loaded) {
      var i :| 0 <= i < |phdrs| && Contains(phdrs, i, bias, loaded, end);
      assert Sound(phdrs[i], bias);
      assert PassesWrapped(phdrs, i, bias, loaded, TableSize(phdrs));
    }
    if i: nat :| PassesWrapped(phdrs, i, bias, loaded, TableSize(phdrs)) {
      assert Sound(phdrs[i], bias);
      assert Contains(phdrs, i, bias, loaded, end);
    }
    forall k: nat | Load(phdrs, k) ensures !TrulyContains(phdrs, k, bias, loaded, TableSize(phdrs)) {
      assert Sound(phdrs[k], bias);
    }
  }

  /** So the check tells whether some segment contains the table exactly when the table's end does not wrap
      around, or no segment passes with the wrapped end. */
  lemma {:induction false} CheckTellsExactly(phdrs: seq<Phdr>, bias: U64, loaded: U64)
    requires TableSize(phdrs) <= 65536 && TableSound(phdrs, bias)
    ensures (CheckPhdr(phdrs, bias, loaded) <==>
             exists i: nat :: TrulyContains(phdrs, i, bias, loaded, TableSize(phdrs))) <==>
            (loaded + TableSize(phdrs) < 0x1_0000_0000_0000_0000
             || !exists i: nat :: PassesWrapped(phdrs, i, bias, loaded, TableSize(phdrs)))
  {
    hide CheckPhdr, TrulyContains, PassesWrapped, TableSound;
    if loaded + TableSize(phdrs) < 0x1_0000_0000_0000_0000 {
      CheckedExactly(phdrs, bias, loaded);
    } else {
      WrappedTablePasses(phdrs, bias, loaded);
    }
  }

  /** A one-entry table eight bytes below the top of the address space passes for a segment at the bottom. */
  lemma {:induction false} WrappedTableExample()
    ensures var phdrs := [Phdr(PT_LOAD, true, false, false, 0, 0, 4096, 4096, 4096)];
            CheckPhdr(phdrs, 0, 0xFFFF_FFFF_FFFF_FFF8)
  {
    var phdrs := [Phdr(PT_LOAD, true, false, false, 0, 0, 4096, 4096, 4096)];
    var end := Wrap64(0xFFFF_FFFF_FFFF_FFF8 + TableSize(phdrs));
    assert end == 48 && SegStart(phdrs[0], 0) == 0 && SegFileEnd(phdrs[0], 0) == 4096;
    assert Contains(phdrs, 0, 0, 0xFFFF_FFFF_FFFF_FFF8, end);
  }

  /** [loaded, loaded + size) lies in the file part of segment `i`, can be read, and holds the file's bytes. */
  predicate ShowsFile(m: Memory, phdrs: seq<Phdr>, i: nat, bias: U64, src: Source, loaded: nat, size: nat) {
    && TrulyContains(phdrs, i, bias, loaded, size) && InFile(phdrs[i], src)
    && var at := src.offset + phdrs[i].offset + (loaded - SegStart(phdrs[i], bias));
       ReadsAs(m, loaded, src.file.bytes[at..at + size])
  }

  /** Whatever way a table was found, if its end does not wrap around and the segments are readable and in
      the file, it can be read whole and holds what the file holds there. */
  lemma {:induction false} FoundIsReadable(before: Memory, after: Memory, phdrs: seq<Phdr>, bias: U64, src: Source)
    requires TableSize(phdrs) <= 65536 && TableSound(phdrs, bias)
             && ImagesStand(before, after, phdrs, |phdrs|, bias, src)
    requires forall i: nat :: Load(phdrs, i) ==> phdrs[i].read && InFile(phdrs[i], src)
    requires var found := FindPhdr(after, phdrs, bias);
             found.Found? && found.loaded + TableSize(phdrs) < 0x1_0000_0000_0000_0000
    ensures var loaded := FindPhdr(after, phdrs, bias).loaded;
            exists i: nat :: ShowsFile(after, phdrs, i, bias, src, loaded, TableSize(phdrs))
  {
    hide SegStart, ImagesStand, ReadsAs, Sound, TableSound, InPages, ImageCell;
    var loaded := FindPhdr(after, phdrs, bias).loaded;
    FoundIsChecked(after, phdrs, bias);
    CheckedExactly(phdrs, bias, loaded);
    var i: nat :| TrulyContains(phdrs, i, bias, loaded, TableSize(phdrs));
    var from := loaded - SegStart(phdrs[i], bias);
    FileStretchLoaded(before, after, phdrs, i, bias, src, from, from + TableSize(phdrs));
    assert ShowsFile(after, phdrs, i, bias, src, loaded, TableSize(phdrs));
  }

  lemma {:induction false} FoundIsChecked(m: Memory, phdrs: seq<Phdr>, bias: U64)
    requires TableSize(phdrs) <= 65536 && FindPhdr(m, phdrs, bias).Found?
    ensures CheckPhdr(phdrs, bias, FindPhdr(m, phdrs, bias).loaded)
  {
    hide CheckPhdr, U64At;
  }
}
