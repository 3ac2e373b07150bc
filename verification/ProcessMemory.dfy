/** A process's memory: a cell for every mapped address, and the system calls that change it. */
module ProcessMemory {
  import opened Basics
  import opened Paging

  datatype Prot = Prot(read: bool, write: bool, exec: bool)

  const PROT_NONE: Prot := Prot(false, false, false)
  const PROT_READ: Prot := Prot(true, false, false)

  /** What stands behind a page: a private copy, or a file's page shared with every mapping of it. */
  datatype Backing = Private | FilePage(file: nat, offset: nat)

  /** `byte` is None where an access raises SIGBUS: the page lies wholly behind the file's end. */
  datatype Cell = Cell(byte: Option<Byte>, prot: Prot, backing: Backing)

  type Memory = nat -> Option<Cell>

  /** A file, by an identity and its bytes. */
  datatype File = File(id: nat, bytes: seq<Byte>)

  /** What a mapping of the file shows at a file offset. */
  function FileByte(file: File, offset: nat): Option<Byte> {
    if offset < |file.bytes| then Some(file.bytes[offset])
    else if offset < PageUp(|file.bytes|) then Some(0)
    else None
  }

  function ZeroCell(prot: Prot): Cell { Cell(Some(0), prot, Private) }

  function FileCell(file: File, offset: nat, prot: Prot): Cell {
    Cell(FileByte(file, offset), prot, FilePage(file.id, PageStart(offset)))
  }

  // ----- What the system calls do -----

  /** The pages of [at, at + length) replaced by zeros of their own. */
  function MapAnonymous(m: Memory, at: nat, length: nat, prot: Prot): Memory {
    (a: nat) => if at <= a < PageUp(at + length) then Some(ZeroCell(prot)) else m(a)
  }

  /** The pages of [at, at + length) replaced by the file's pages from `offset` on. */
  function MapFile(m: Memory, at: nat, length: nat, prot: Prot, file: File, offset: nat): Memory {
    (a: nat) => if at <= a < PageUp(at + length) then Some(FileCell(file, offset + a - at, prot)) else m(a)
  }

  function Unmap(m: Memory, at: nat, length: nat): Memory {
    (a: nat) => if at <= a < PageUp(at + length) then None else m(a)
  }

  /** Zeros in [from, to); the touched pages become private copies. */
  function ZeroFill(m: Memory, from: nat, to: nat): Memory {
    (a: nat) => if PageStart(from) <= a < PageUp(to) && m(a).Some?
                then Some(Cell(if from <= a < to then Some(0) else m(a).value.byte, m(a).value.prot, Private))
                else m(a)
  }

  predicate Mapped(m: Memory, from: nat, to: nat) { forall a: nat :: from <= a < to ==> m(a).Some? }

  /** mprotect of page-aligned [from, to): the protection changes up to the first page that is not mapped. */
  function Reprotect(m: Memory, from: nat, to: nat, prot: Prot): Memory {
    (a: nat) => if from <= a < to && m(a).Some? && Mapped(m, from, a) then Some(m(a).value.(prot := prot)) else m(a)
  }

  /** Whether a write at `a` succeeds. */
  predicate Writable(m: Memory, a: nat) { m(a).Some? && m(a).value.prot.write && m(a).value.byte.Some? }

  predicate AllWritable(m: Memory, from: nat, to: nat) { forall a: nat :: from <= a < to ==> Writable(m, a) }

  // ----- Reading memory -----

  /** `length` bytes from `a` on; None when some read faults. */
  function BytesAt(m: Memory, a: nat, length: nat): (r: Option<seq<Byte>>)
    ensures r.Some? ==> |r.value| == length
  {
    if length == 0 then Some([])
    else
      var before, cell := BytesAt(m, a, length - 1), m(a + length - 1);
      if before.Some? && cell.Some? && cell.value.prot.read && cell.value.byte.Some?
      then Some(before.value + [cell.value.byte.value])
      else None
  }

  /** Memory from `a` on can be read, and holds `bytes`. */
  predicate ReadsAs(m: Memory, a: nat, bytes: seq<Byte>) { BytesAt(m, a, |bytes|) == Some(bytes) }

  predicate ByteIs(m: Memory, a: nat, b: Byte) { m(a).Some? && m(a).value.prot.read && m(a).value.byte == Some(b) }

  lemma {:induction false} ReadsBytewise(m: Memory, a: nat, bytes: seq<Byte>)
    requires forall k: nat :: k < |bytes| ==> ByteIs(m, a + k, bytes[k])
    ensures ReadsAs(m, a, bytes)
  {
    if bytes != [] {
      var init := bytes[..|bytes| - 1];
      forall k: nat | k < |init| ensures ByteIs(m, a + k, init[k]) {
        assert ByteIs(m, a + k, bytes[k]);
      }
      ReadsBytewise(m, a, init);
      assert ByteIs(m, a + (|bytes| - 1), bytes[|bytes| - 1]);
      assert bytes == init + [bytes[|bytes| - 1]];
    }
  }

  // ----- System calls -----

  /** The arguments of a fixed mmap that are not refused out of hand. */
  predicate MmapOk(at: nat, length: nat, offset: nat) {
    length > 0 && PageAligned(at) && PageAligned(offset) && PageUp(at + length) <= TOP
  }

  ghost predicate Free(m: Memory, at: nat, length: nat) {
    forall a: nat :: at <= a < PageUp(at + length) ==> m(a) == None
  }

  /** What the kernel promises of a place it chooses: whole pages, in the address space, not in use. */
  ghost predicate Choice(m: Memory, at: Option<nat>, length: nat) {
    at.Some? ==> PageAligned(at.value) && PageUp(at.value + length) < TOP && Free(m, at.value, length)
  }

  /** The calling process. A `denied` argument is the kernel refusing a request for reasons of its own. */
  class Process {
    var memory: Memory

    constructor (m: Memory)
      ensures memory == m
    {
      memory := m;
    }

    method MmapFile(at: nat, length: nat, prot: Prot, file: File, offset: nat, denied: bool) returns (ok: bool)
      modifies this
      ensures ok == (MmapOk(at, length, offset) && !denied)
      ensures memory == if ok then MapFile(old(memory), at, length, prot, file, offset) else old(memory)
    {
      ok := MmapOk(at, length, offset) && !denied;
      if ok {
        memory := MapFile(memory, at, length, prot, file, offset);
      }
    }

    method MmapAnonymous(at: nat, length: nat, prot: Prot, denied: bool) returns (ok: bool)
      modifies this
      ensures ok == (MmapOk(at, length, 0) && !denied)
      ensures memory == if ok then MapAnonymous(old(memory), at, length, prot) else old(memory)
    {
      ok := MmapOk(at, length, 0) && !denied;
      if ok {
        memory := MapAnonymous(memory, at, length, prot);
      }
    }

    /** mmap at a place of the kernel's choice, or None when it has none. */
    method MmapAnywhere(length: nat, prot: Prot, at: Option<nat>)
      requires Choice(memory, at, length)
      modifies this
      ensures memory == if at.Some? then MapAnonymous(old(memory), at.value, length, prot) else old(memory)
    {
      if at.Some? {
        memory := MapAnonymous(memory, at.value, length, prot);
      }
    }

    method Munmap(at: nat, length: nat)
      modifies this
      ensures memory == Unmap(old(memory), at, length)
    {
      memory := Unmap(memory, at, length);
    }

    /** memset to zero; false is the fault. */
    method Zero(from: nat, to: nat) returns (ok: bool)
      modifies this
      ensures ok == AllWritable(old(memory), from, to)
      ensures memory == if ok then ZeroFill(old(memory), from, to) else old(memory)
    {
      ok := AllWritable(memory, from, to);
      if ok {
        memory := ZeroFill(memory, from, to);
      }
    }

    /** mprotect of [from, to); false when some page of the range is not mapped, or when the range's length
        has wrapped around. */
    method Mprotect(from: nat, to: nat, prot: Prot) returns (ok: bool)
      modifies this
      ensures ok == (from <= to && Mapped(old(memory), from, to))
      ensures memory == Reprotect(old(memory), from, to, prot)
    {
      ok := from <= to && Mapped(memory, from, to);
      memory := Reprotect(memory, from, to, prot);
    }
  }
}
