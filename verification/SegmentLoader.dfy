/** `LoadSegments`: maps every loadable segment of a file at its place, zero-fills what the file does not
    provide, and refuses tables it cannot load. */
module SegmentLoader {
  import opened Basics
  import opened Paging
  import opened ProcessMemory
  import opened LoadExtent

  /** Where the segments come from. `size` is what the caller says of the file; `strict` is a target SDK
      of 26 or later; the two functions say which mappings the kernel denies, by header index. */
  datatype Source = Source(file: File, offset: nat, size: int, strict: bool, fileDenied: nat -> bool,
                           zeroDenied: nat -> bool)

  datatype Outcome = Loaded(memory: Memory) | Refused(memory: Memory) | Crashed(memory: Memory)

  function SegmentProt(p: Phdr): Prot { Prot(p.read, p.write, p.exec) }

  // ----- One segment, as the code computes it -----

  function SegStart(p: Phdr, bias: U64): U64 { Wrap64(p.vaddr + bias) }

  function SegEnd(p: Phdr, bias: U64): U64 { Wrap64(SegStart(p, bias) + p.memsz) }

  function SegFileEnd(p: Phdr, bias: U64): U64 { Wrap64(SegStart(p, bias) + p.filesz) }

  function FileEnd(p: Phdr): U64 { Wrap64(p.offset + p.filesz) }

  function FileLength(p: Phdr): U64 { Wrap64(FileEnd(p) - PageStart(p.offset)) }

  predicate PastEnd(p: Phdr, src: Source) { src.size <= 0 || FileEnd(p) > src.size }

  predicate WriteAndExec(p: Phdr, src: Source) { p.write && p.exec && src.strict }

  /** The file part: None when it is refused. */
  function MapContent(m: Memory, p: Phdr, i: nat, bias: U64, src: Source): Option<Memory> {
    var at, offset := PageStart(SegStart(p, bias)), src.offset + PageStart(p.offset);
    if FileLength(p) == 0 then Some(m)
    else if WriteAndExec(p, src) || !MmapOk(at, FileLength(p), offset) || src.fileDenied(i) then None
    else Some(MapFile(m, at, FileLength(p), SegmentProt(p), src.file, offset))
  }

  /** The rest of the last file page: None when writing there faults. */
  function ZeroPartialPage(m: Memory, p: Phdr, bias: U64): Option<Memory> {
    var end := SegFileEnd(p, bias);
    if !p.write || PageOffset(end) == 0 then Some(m)
    else if !AllWritable(m, end, end + 4096 - PageOffset(end)) then None
    else Some(ZeroFill(m, end, end + 4096 - PageOffset(end)))
  }

  /** The pages behind it: None when the mapping is refused. */
  function MapZeroPages(m: Memory, p: Phdr, i: nat, bias: U64, src: Source): Option<Memory> {
    var from, to := PageEnd(SegFileEnd(p, bias)), PageEnd(SegEnd(p, bias));
    if to <= from then Some(m)
    else if !MmapOk(from, to - from, 0) || src.zeroDenied(i) then None
    else Some(MapAnonymous(m, from, to - from, SegmentProt(p)))
  }

  function LoadSegment(m: Memory, p: Phdr, i: nat, bias: U64, src: Source): Outcome {
    if PastEnd(p, src) then Refused(m)
    else
      var content := MapContent(m, p, i, bias, src);
      if content.None? then Refused(m)
      else
        var zeroed := ZeroPartialPage(content.value, p, bias);
        if zeroed.None? then Crashed(content.value)
        else
          var done := MapZeroPages(zeroed.value, p, i, bias, src);
          if done.None? then Refused(zeroed.value) else Loaded(done.value)
  }

  /** The first `n` headers. */
  function LoadAll(m: Memory, phdrs: seq<Phdr>, n: nat, bias: U64, src: Source): Outcome
    requires n <= |phdrs|
  {
    if n == 0 then Loaded(m)
    else
      var before := LoadAll(m, phdrs, n - 1, bias, src);
      if !before.Loaded? || phdrs[n - 1].kind != PT_LOAD then before
      else LoadSegment(before.memory, phdrs[n - 1], n - 1, bias, src)
  }

  lemma {:induction false} StopsThere(m: Memory, phdrs: seq<Phdr>, i: nat, n: nat, bias: U64, src: Source)
    requires i <= n <= |phdrs| && !LoadAll(m, phdrs, i, bias, src).Loaded?
    ensures LoadAll(m, phdrs, n, bias, src) == LoadAll(m, phdrs, i, bias, src)
    decreases n
  {
    hide LoadSegment;
    if i < n {
      StopsThere(m, phdrs, i, n - 1, bias, src);
    }
  }

  datatype Verdict = Success | Failure | Fault

  function VerdictOf(o: Outcome): Verdict {
    match o case Loaded(_) => Success case Refused(_) => Failure case Crashed(_) => Fault
  }

  ghost predicate Agrees(v: Verdict, memory: Memory, o: Outcome) { v == VerdictOf(o) && memory == o.memory }

  method MapFilePart(process: Process, p: Phdr, i: nat, bias: U64, src: Source) returns (ok: bool)
    modifies process
    ensures var after := MapContent(old(process.memory), p, i, bias, src);
            ok == after.Some? && process.memory == if ok then after.value else old(process.memory)
  {
    hide PageStart, PageUp, PageEnd, Wrap64;
    var segPageStart, filePageStart, fileLength := PageStart(SegStart(p, bias)), PageStart(p.offset), FileLength(p);
    ok := true;
    if fileLength != 0 {
      if p.write && p.exec && src.strict {
        return false;
      }
      ok := process.MmapFile(segPageStart, fileLength, SegmentProt(p), src.file, src.offset + filePageStart,
                             src.fileDenied(i));
    }
  }

  method ZeroLastFilePage(process: Process, p: Phdr, bias: U64) returns (ok: bool)
    modifies process
    ensures var after := ZeroPartialPage(old(process.memory), p, bias);
            ok == after.Some? && process.memory == if ok then after.value else old(process.memory)
  {
    hide PageStart, PageUp, PageEnd, Wrap64;
    var segFileEnd := SegFileEnd(p, bias);
    ok := true;
    if p.write && PageOffset(segFileEnd) > 0 {
      ok := process.Zero(segFileEnd, segFileEnd + 4096 - PageOffset(segFileEnd));
    }
  }

  method MapZeroPart(process: Process, p: Phdr, i: nat, bias: U64, src: Source) returns (ok: bool)
    modifies process
    ensures var after := MapZeroPages(old(process.memory), p, i, bias, src);
            ok == after.Some? && process.memory == if ok then after.value else old(process.memory)
  {
    hide PageStart, PageUp, PageEnd, Wrap64;
    var segFileEnd, segPageEnd := PageEnd(SegFileEnd(p, bias)), PageEnd(SegEnd(p, bias));
    ok := true;
    if segPageEnd > segFileEnd {
      ok := process.MmapAnonymous(segFileEnd, segPageEnd - segFileEnd, SegmentProt(p), src.zeroDenied(i));
    }
  }

  /** The body of the loop of `LoadSegments`. */
  method LoadOne(process: Process, p: Phdr, i: nat, bias: U64, src: Source) returns (verdict: Verdict)
    modifies process
    ensures Agrees(verdict, process.memory, LoadSegment(old(process.memory), p, i, bias, src))
  {
    hide PageStart, PageUp, PageEnd, Wrap64;
    if src.size <= 0 || FileEnd(p) > src.size {
      return Failure;
    }
    var ok := MapFilePart(process, p, i, bias, src);
    if !ok {
      return Failure;
    }
    ok := ZeroLastFilePage(process, p, bias);
    if !ok {
      return Fault;
    }
    ok := MapZeroPart(process, p, i, bias, src);
    verdict := if ok then Success else Failure;
  }

  method LoadSegments(process: Process, phdrs: seq<Phdr>, bias: U64, src: Source) returns (verdict: Verdict)
    modifies process
    ensures Agrees(verdict, process.memory, LoadAll(old(process.memory), phdrs, |phdrs|, bias, src))
  {
    hide LoadSegment;
    for i := 0 to |phdrs|
      invariant Agrees(Success, process.memory, LoadAll(old(process.memory), phdrs, i, bias, src))
    {
      if phdrs[i].kind != PT_LOAD {
        continue;
      }
      verdict := LoadOne(process, phdrs[i], i, bias, src);
      if verdict != Success {
        StopsThere(old(process.memory), phdrs, i + 1, |phdrs|, bias, src);
        return;
      }
    }
    verdict := Success;
  }
}
