/** The page-protection lifecycle: made writable for relocation, restored, and RELRO made read-only. */
module Protection {
  import opened Basics
  import opened Paging
  import opened ProcessMemory
  import opened LoadExtent
  import SegmentLoader
  import Image = SegmentImage

  // ----- Pages of a header, as these functions compute them -----

  function PagesFrom(p: Phdr, bias: U64): U64 { Wrap64(PageStart(p.vaddr) + bias) }

  function PagesTo(p: Phdr, bias: U64): U64 { Wrap64(PageEnd(Wrap64(p.vaddr + p.memsz)) + bias) }

  predicate InPages(p: Phdr, bias: U64, a: int) { PagesFrom(p, bias) <= a < PagesTo(p, bias) }

  // ----- One header -----

  /** The protection of a non-writable segment: never writable and executable together. */
  function LoadProt(p: Phdr, makeWritable: bool): Prot {
    var prot := Prot(p.read, p.write || makeWritable, p.exec);
    if prot.write then prot.(exec := false) else prot
  }

  /** Which headers a pass over the table works on, and with which protection. */
  datatype Pass = Segments(makeWritable: bool) | Relro

  predicate Selects(pass: Pass, p: Phdr) {
    if pass.Relro? then p.kind == PT_GNU_RELRO else p.kind == PT_LOAD && !p.write
  }

  function PassProt(pass: Pass, p: Phdr): Prot { if pass.Relro? then PROT_READ else LoadProt(p, pass.makeWritable) }

  // ----- The passes -----

  datatype Result = Result(memory: Memory, ok: bool)

  function Step(m: Memory, p: Phdr, bias: U64, pass: Pass): Result {
    if !Selects(pass, p) then Result(m, true)
    else
      var from, to := PagesFrom(p, bias), PagesTo(p, bias);
      Result(Reprotect(m, from, to, PassProt(pass, p)), from <= to && Mapped(m, from, to))
  }

  /** The first `n` headers; the first failing mprotect ends the pass. */
  function Run(m: Memory, phdrs: seq<Phdr>, n: nat, bias: U64, pass: Pass): Result
    requires n <= |phdrs|
  {
    if n == 0 then Result(m, true)
    else
      var before := Run(m, phdrs, n - 1, bias, pass);
      if !before.ok then before else Step(before.memory, phdrs[n - 1], bias, pass)
  }

  lemma {:induction false} RunStops(m: Memory, phdrs: seq<Phdr>, i: nat, n: nat, bias: U64, pass: Pass)
    requires i <= n <= |phdrs| && !Run(m, phdrs, i, bias, pass).ok
    ensures Run(m, phdrs, n, bias, pass) == Run(m, phdrs, i, bias, pass)
    decreases n
  {
    hide Step;
    if i < n {
      RunStops(m, phdrs, i, n - 1, bias, pass);
    }
  }

  ghost predicate IsResult(ok: bool, memory: Memory, r: Result) { ok == r.ok && memory == r.memory }

  /** `_phdr_table_set_load_prot` */
  method SetLoadProt(process: Process, phdrs: seq<Phdr>, bias: U64, makeWritable: bool) returns (ok: bool)
    modifies process
    ensures IsResult(ok, process.memory, Run(old(process.memory), phdrs, |phdrs|, bias, Segments(makeWritable)))
  {
    hide PageStart, PageEnd, Wrap64;
    var pass := Segments(makeWritable);
    for i := 0 to |phdrs|
      invariant IsResult(true, process.memory, Run(old(process.memory), phdrs, i, bias, pass))
    {
      var p := phdrs[i];
      if p.kind != PT_LOAD || p.write {
        continue;
      }
      var prot := Prot(p.read, p.write || makeWritable, p.exec);
      if prot.write {
        prot := prot.(exec := false);
      }
      ok := process.Mprotect(PagesFrom(p, bias), PagesTo(p, bias), prot);
      if !ok {
        RunStops(old(process.memory), phdrs, i + 1, |phdrs|, bias, pass);
        return;
      }
    }
    ok := true;
  }

  /** `_phdr_table_set_gnu_relro_prot`, as `phdr_table_protect_gnu_relro` calls it. */
  method ProtectGnuRelro(process: Process, phdrs: seq<Phdr>, bias: U64) returns (ok: bool)
    modifies process
    ensures IsResult(ok, process.memory, Run(old(process.memory), phdrs, |phdrs|, bias, Relro))
  {
    hide PageStart, PageEnd, Wrap64;
    for i := 0 to |phdrs|
      invariant IsResult(true, process.memory, Run(old(process.memory), phdrs, i, bias, Relro))
    {
      var p := phdrs[i];
      if p.kind != PT_GNU_RELRO {
        continue;
      }
      ok := process.Mprotect(PagesFrom(p, bias), PagesTo(p, bias), PROT_READ);
      if !ok {
        RunStops(old(process.memory), phdrs, i + 1, |phdrs|, bias, Relro);
        return;
      }
    }
    ok := true;
  }

  method ProtectSegments(process: Process, phdrs: seq<Phdr>, bias: U64) returns (ok: bool)
    modifies process
    ensures IsResult(ok, process.memory, Run(old(process.memory), phdrs, |phdrs|, bias, Segments(false)))
  {
    ok := SetLoadProt(process, phdrs, bias, false);
  }

  method UnprotectSegments(process: Process, phdrs: seq<Phdr>, bias: U64) returns (ok: bool)
    modifies process
    ensures IsResult(ok, process.memory, Run(old(process.memory), phdrs, |phdrs|, bias, Segments(true)))
  {
    ok := SetLoadProt(process, phdrs, bias, true);
  }

  // ----- Never writable and executable -----

  predicate WriteAndExec(c: Option<Cell>) { c.Some? && c.value.prot.write && c.value.prot.exec }

  /** Only protections differ, and none of the new ones is both writable and executable. */
  ghost predicate OnlyReprotected(before: Memory, after: Memory) {
    forall a: nat ::
      after(a) == before(a) ||
      (before(a).Some? && after(a).Some? && after(a) == Some(before(a).value.(prot := after(a).value.prot))
       && !WriteAndExec(after(a)))
  }

  lemma {:induction false} StepReprotects(m: Memory, p: Phdr, bias: U64, pass: Pass)
    ensures OnlyReprotected(m, Step(m, p, bias, pass).memory)
  {
    hide PagesFrom, PagesTo;
  }

  lemma {:induction false} ReprotectedTwice(m: Memory, m1: Memory, m2: Memory)
    requires OnlyReprotected(m, m1) && OnlyReprotected(m1, m2)
    ensures OnlyReprotected(m, m2)
  {
  }

  lemma {:induction false} RunReprotects(m: Memory, phdrs: seq<Phdr>, n: nat, bias: U64, pass: Pass)
    requires n <= |phdrs|
    ensures OnlyReprotected(m, Run(m, phdrs, n, bias, pass).memory)
  {
    hide Step, OnlyReprotected;
    if n == 0 {
      NothingReprotected(m);
    } else {
      RunReprotects(m, phdrs, n - 1, bias, pass);
      var before := Run(m, phdrs, n - 1, bias, pass);
      if before.ok {
        StepReprotects(before.memory, phdrs[n - 1], bias, pass);
        ReprotectedTwice(m, before.memory, Step(before.memory, phdrs[n - 1], bias, pass).memory);
      }
    }
  }

  lemma {:induction false} NothingReprotected(m: Memory)
    ensures OnlyReprotected(m, m)
  {
  }

  /** Any number of passes, of any kind and in any order, whether they succeed or not. */
  function RunAll(m: Memory, phdrs: seq<Phdr>, bias: U64, passes: seq<Pass>): Memory {
    if passes == [] then m
    else Run(RunAll(m, phdrs, bias, passes[..|passes| - 1]), phdrs, |phdrs|, bias, passes[|passes| - 1]).memory
  }

  /** Over any sequence of passes, no byte changes, and no page whose protection was touched is writable and
      executable together. */
  lemma {:induction false} NeverWriteAndExec(m: Memory, phdrs: seq<Phdr>, bias: U64, passes: seq<Pass>)
    ensures OnlyReprotected(m, RunAll(m, phdrs, bias, passes))
  {
    hide OnlyReprotected, Run;
    if passes == [] {
      NothingReprotected(m);
    } else {
      var before := RunAll(m, phdrs, bias, passes[..|passes| - 1]);
      NeverWriteAndExec(m, phdrs, bias, passes[..|passes| - 1]);
      RunReprotects(before, phdrs, |phdrs|, bias, passes[|passes| - 1]);
      ReprotectedTwice(m, before, RunAll(m, phdrs, bias, passes));
    }
  }

  // ----- What a pass sets -----

  /** `a` is on the pages of header `i`, which the pass works on. */
  predicate Touches(phdrs: seq<Phdr>, i: nat, bias: U64, pass: Pass, a: int) {
    i < |phdrs| && Selects(pass, phdrs[i]) && InPages(phdrs[i], bias, a)
  }

  predicate Relevant(phdrs: seq<Phdr>, i: nat) {
    i < |phdrs| && (phdrs[i].kind == PT_LOAD || phdrs[i].kind == PT_GNU_RELRO)
  }

  predicate InOrder(p: Phdr, bias: U64) { PagesFrom(p, bias) <= PagesTo(p, bias) }

  /** All pages of all segments and RELRO headers are mapped, and none of their ranges wraps around. */
  ghost predicate AllMapped(m: Memory, phdrs: seq<Phdr>, bias: U64) {
    && (forall i: nat :: Relevant(phdrs, i) ==> InOrder(phdrs[i], bias))
    && forall i: nat, a: nat :: Relevant(phdrs, i) && InPages(phdrs[i], bias, a) ==> m(a).Some?
  }

  /** No two headers of a pass share a page, unless they set the same protection. */
  ghost predicate PassApart(phdrs: seq<Phdr>, bias: U64, pass: Pass) {
    forall i: nat, j: nat, a: nat :: Touches(phdrs, i, bias, pass, a) && Touches(phdrs, j, bias, pass, a) ==>
      PassProt(pass, phdrs[i]) == PassProt(pass, phdrs[j])
  }

  /** Exactly the pages of the first `n` headers have the pass's protection; the rest is as before. */
  ghost predicate SetBy(before: Memory, after: Memory, phdrs: seq<Phdr>, n: nat, bias: U64, pass: Pass) {
    && (forall i: nat, a: nat :: i < n && Touches(phdrs, i, bias, pass, a) ==>
          before(a).Some? && after(a) == Some(before(a).value.(prot := PassProt(pass, phdrs[i]))))
    && (forall a: nat :: (forall i: nat :: i < n ==> !Touches(phdrs, i, bias, pass, a)) ==> after(a) == before(a))
  }

  /** Header `n` sets its protection on mapped pages and nowhere else. */
  lemma {:induction false} StepSets(m: Memory, p: Phdr, bias: U64, pass: Pass)
    requires Selects(pass, p) && InOrder(p, bias) && forall a: nat :: InPages(p, bias, a) ==> m(a).Some?
    ensures Step(m, p, bias, pass).ok
    ensures forall a: nat :: Step(m, p, bias, pass).memory(a) ==
                             if InPages(p, bias, a) then Some(m(a).value.(prot := PassProt(pass, p))) else m(a)
  {
    hide PagesFrom, PagesTo;
    var from, to := PagesFrom(p, bias), PagesTo(p, bias);
    forall a: nat | from <= a < to ensures m(a).Some? && Mapped(m, from, a) {
      assert InPages(p, bias, a);
      forall b: nat | from <= b < a ensures m(b).Some? {
        assert InPages(p, bias, b);
      }
    }
  }

  lemma {:induction false} OneMoreSet(before: Memory, m: Memory, after: Memory, phdrs: seq<Phdr>, n: nat, bias: U64,
                                      pass: Pass)
    requires n < |phdrs| && Selects(pass, phdrs[n]) && PassApart(phdrs, bias, pass)
             && SetBy(before, m, phdrs, n, bias, pass)
    requires forall a: nat :: InPages(phdrs[n], bias, a) ==> before(a).Some? && m(a).Some?
    requires forall a: nat ::
             after(a) ==
             if InPages(phdrs[n], bias, a) then Some(m(a).value.(prot := PassProt(pass, phdrs[n]))) else m(a)
    ensures SetBy(before, after, phdrs, n + 1, bias, pass)
  {
    hide PagesFrom, PagesTo, InPages, PassProt;
    forall i: nat, a: nat | i < n + 1 && Touches(phdrs, i, bias, pass, a)
      ensures before(a).Some? && after(a) == Some(before(a).value.(prot := PassProt(pass, phdrs[i])))
    {
      if i < n {
        assert m(a) == Some(before(a).value.(prot := PassProt(pass, phdrs[i])));
        if InPages(phdrs[n], bias, a) {
          assert Touches(phdrs, n, bias, pass, a);
        }
      } else {
        BytesKept(before, m, phdrs, n, bias, pass, a);
      }
    }
    forall a: nat | forall i: nat :: i < n + 1 ==> !Touches(phdrs, i, bias, pass, a) ensures after(a) == before(a) {
      assert !Touches(phdrs, n, bias, pass, a);
    }
  }

  lemma {:induction false} BytesKept(before: Memory, m: Memory, phdrs: seq<Phdr>, n: nat, bias: U64, pass: Pass, a: nat)
    requires n <= |phdrs| && SetBy(before, m, phdrs, n, bias, pass) && before(a).Some?
    ensures m(a).Some? && m(a) == Some(before(a).value.(prot := m(a).value.prot))
  {
    hide PagesFrom, PagesTo, InPages, PassProt, Selects;
    if i: nat :| i < n && Touches(phdrs, i, bias, pass, a) {
    }
  }

  /** With every page mapped and no clash of protections a pass succeeds, and sets exactly what it selects. */
  lemma {:induction false} PassSets(m: Memory, phdrs: seq<Phdr>, n: nat, bias: U64, pass: Pass)
    requires n <= |phdrs| && AllMapped(m, phdrs, bias) && PassApart(phdrs, bias, pass)
    ensures Run(m, phdrs, n, bias, pass).ok
    ensures SetBy(m, Run(m, phdrs, n, bias, pass).memory, phdrs, n, bias, pass)
  {
    hide InPages, PassProt, PassApart;
    if n > 0 {
      PassSets(m, phdrs, n - 1, bias, pass);
      var before := Run(m, phdrs, n - 1, bias, pass).memory;
      var p := phdrs[n - 1];
      if Selects(pass, p) {
        assert Relevant(phdrs, n - 1);
        forall a: nat | InPages(p, bias, a) ensures m(a).Some? && before(a).Some? {
          BytesKept(m, before, phdrs, n - 1, bias, pass, a);
        }
        StepSets(before, p, bias, pass);
        OneMoreSet(m, before, Step(before, p, bias, pass).memory, phdrs, n - 1, bias, pass);
      } else {
        SkippedSet(m, before, phdrs, n - 1, bias, pass);
      }
    }
  }

  lemma {:induction false} SkippedSet(before: Memory, m: Memory, phdrs: seq<Phdr>, n: nat, bias: U64, pass: Pass)
    requires n < |phdrs| && !Selects(pass, phdrs[n]) && SetBy(before, m, phdrs, n, bias, pass)
    ensures SetBy(before, m, phdrs, n + 1, bias, pass)
  {
    hide InPages, PassProt;
    forall a: nat | forall i: nat :: i < n + 1 ==> !Touches(phdrs, i, bias, pass, a) ensures m(a) == before(a) {
      assert forall i: nat :: i < n ==> !Touches(phdrs, i, bias, pass, a);
    }
  }

  // ----- Unprotect, then protect -----

  /** Loadable segments do not share pages. */
  ghost predicate SegmentsApart(phdrs: seq<Phdr>, bias: U64) {
    forall i: nat, j: nat, a: nat :: i < j < |phdrs| && phdrs[i].kind == PT_LOAD == phdrs[j].kind ==>
      !(InPages(phdrs[i], bias, a) && InPages(phdrs[j], bias, a))
  }

  /** `a` is on the pages of a loadable segment that is not writable. */
  predicate InReadOnly(phdrs: seq<Phdr>, i: nat, bias: U64, a: int) {
    i < |phdrs| && phdrs[i].kind == PT_LOAD && !phdrs[i].write && InPages(phdrs[i], bias, a)
  }

  /** `a` is on the pages of a RELRO header. */
  predicate OnRelro(phdrs: seq<Phdr>, i: nat, bias: U64, a: int) {
    i < |phdrs| && phdrs[i].kind == PT_GNU_RELRO && InPages(phdrs[i], bias, a)
  }

  /** A pass over segments works on exactly the segments that are not writable, and the other pass on RELRO. */
  lemma {:induction false} PassesTouch(phdrs: seq<Phdr>, i: nat, bias: U64, makeWritable: bool, a: int)
    ensures Touches(phdrs, i, bias, Segments(makeWritable), a) <==> InReadOnly(phdrs, i, bias, a)
    ensures Touches(phdrs, i, bias, Relro, a) <==> OnRelro(phdrs, i, bias, a)
  {
    hide InPages;
  }

  /** The protections the loader gave: those of the segment's flags. */
  ghost predicate LoadProtections(m: Memory, phdrs: seq<Phdr>, bias: U64) {
    forall i: nat, a: nat :: InReadOnly(phdrs, i, bias, a) ==>
      m(a).Some? && m(a).value.prot == Prot(phdrs[i].read, phdrs[i].write, phdrs[i].exec)
  }

  lemma {:induction false} SegmentPassApart(phdrs: seq<Phdr>, bias: U64, makeWritable: bool)
    requires SegmentsApart(phdrs, bias)
    ensures PassApart(phdrs, bias, Segments(makeWritable))
  {
    hide InPages;
  }

  lemma {:induction false} StaysMapped(m: Memory, after: Memory, phdrs: seq<Phdr>, bias: U64)
    requires AllMapped(m, phdrs, bias) && OnlyReprotected(m, after)
    ensures AllMapped(after, phdrs, bias)
  {
    hide InPages;
  }

  /** From any state of the protections, a pass of `protect` restores those of loading; no byte
      changes, and nothing but the segments that are not writable. */
  lemma {:induction false} ProtectRestores(m: Memory, phdrs: seq<Phdr>, bias: U64)
    requires AllMapped(m, phdrs, bias) && SegmentsApart(phdrs, bias)
    ensures Run(m, phdrs, |phdrs|, bias, Segments(false)).ok
    ensures LoadProtections(Run(m, phdrs, |phdrs|, bias, Segments(false)).memory, phdrs, bias)
    ensures OnlyReprotected(m, Run(m, phdrs, |phdrs|, bias, Segments(false)).memory)
    ensures forall a: nat :: (forall i: nat :: !InReadOnly(phdrs, i, bias, a)) ==>
              Run(m, phdrs, |phdrs|, bias, Segments(false)).memory(a) == m(a)
  {
    hide InPages, OnlyReprotected, AllMapped, SegmentsApart, PassApart, Run;
    SegmentPassApart(phdrs, bias, false);
    PassSets(m, phdrs, |phdrs|, bias, Segments(false));
    RunReprotects(m, phdrs, |phdrs|, bias, Segments(false));
    var after := Run(m, phdrs, |phdrs|, bias, Segments(false)).memory;
    forall a: nat | forall i: nat :: !InReadOnly(phdrs, i, bias, a) ensures after(a) == m(a) {
      assert forall i: nat :: Touches(phdrs, i, bias, Segments(false), a) ==> InReadOnly(phdrs, i, bias, a);
    }
  }

  /** Unprotecting and protecting again both succeed and give back exactly the memory there was. */
  lemma {:induction false} UnprotectThenProtect(m: Memory, phdrs: seq<Phdr>, bias: U64, a: nat)
    requires AllMapped(m, phdrs, bias) && SegmentsApart(phdrs, bias) && LoadProtections(m, phdrs, bias)
    ensures var unprotected := Run(m, phdrs, |phdrs|, bias, Segments(true));
            var protected := Run(unprotected.memory, phdrs, |phdrs|, bias, Segments(false));
            && unprotected.ok && protected.ok
            && protected.memory(a) == m(a)
            && (forall i: nat :: InReadOnly(phdrs, i, bias, a) ==>
                  unprotected.memory(a).Some? && unprotected.memory(a).value.prot == Prot(phdrs[i].read, true, false))
  {
    hide InPages, Run, OnlyReprotected, SegmentsApart, AllMapped, PassApart;
    var n := |phdrs|;
    var unprotected := Run(m, phdrs, n, bias, Segments(true));
    SegmentPassApart(phdrs, bias, true);
    SegmentPassApart(phdrs, bias, false);
    PassSets(m, phdrs, n, bias, Segments(true));
    RunReprotects(m, phdrs, n, bias, Segments(true));
    StaysMapped(m, unprotected.memory, phdrs, bias);
    PassSets(unprotected.memory, phdrs, n, bias, Segments(false));
    if i: nat :| Touches(phdrs, i, bias, Segments(false), a) {
      assert Touches(phdrs, i, bias, Segments(true), a);
    } else {
      assert forall i: nat :: i < n ==> !Touches(phdrs, i, bias, Segments(true), a);
    }
  }

  // ----- RELRO stays read-only -----

  /** RELRO pages lie in writable segments: no non-writable segment has one of them. */
  ghost predicate RelroInWritable(phdrs: seq<Phdr>, bias: U64) {
    forall i: nat, j: nat, a: nat :: OnRelro(phdrs, i, bias, a) ==> !InReadOnly(phdrs, j, bias, a)
  }

  ghost predicate RelroReadOnly(m: Memory, phdrs: seq<Phdr>, bias: U64) {
    forall i: nat, a: nat :: OnRelro(phdrs, i, bias, a) ==> m(a).Some? && m(a).value.prot == PROT_READ
  }

  lemma {:induction false} StepKeepsRelro(m: Memory, phdrs: seq<Phdr>, i: nat, bias: U64, pass: Pass)
    requires i < |phdrs| && RelroInWritable(phdrs, bias) && RelroReadOnly(m, phdrs, bias)
    ensures RelroReadOnly(Step(m, phdrs[i], bias, pass).memory, phdrs, bias)
  {
    hide PagesFrom, PagesTo;
    var after := Step(m, phdrs[i], bias, pass).memory;
    forall k: nat, a: nat | OnRelro(phdrs, k, bias, a)
      ensures after(a).Some? && after(a).value.prot == PROT_READ
    {
      assert m(a).Some? && m(a).value.prot == PROT_READ;
      assert !InReadOnly(phdrs, i, bias, a);
    }
  }

  lemma {:induction false} RunKeepsRelro(m: Memory, phdrs: seq<Phdr>, n: nat, bias: U64, pass: Pass)
    requires n <= |phdrs| && RelroInWritable(phdrs, bias) && RelroReadOnly(m, phdrs, bias)
    ensures RelroReadOnly(Run(m, phdrs, n, bias, pass).memory, phdrs, bias)
  {
    hide Step, RelroInWritable, RelroReadOnly;
    if n > 0 {
      RunKeepsRelro(m, phdrs, n - 1, bias, pass);
      var before := Run(m, phdrs, n - 1, bias, pass);
      if before.ok {
        StepKeepsRelro(before.memory, phdrs, n - 1, bias, pass);
      }
    }
  }

  /** Protecting RELRO makes its pages read-only, and no later sequence of passes changes that. */
  lemma {:induction false} RelroStaysReadOnly(m: Memory, phdrs: seq<Phdr>, bias: U64, passes: seq<Pass>)
    requires AllMapped(m, phdrs, bias) && RelroInWritable(phdrs, bias)
    ensures RelroReadOnly(RunAll(Run(m, phdrs, |phdrs|, bias, Relro).memory, phdrs, bias, passes), phdrs, bias)
  {
    hide InPages, Run, AllMapped, RelroInWritable;
    var protected := Run(m, phdrs, |phdrs|, bias, Relro).memory;
    if passes == [] {
      PassSets(m, phdrs, |phdrs|, bias, Relro);
    } else {
      RelroStaysReadOnly(m, phdrs, bias, passes[..|passes| - 1]);
      RunKeepsRelro(RunAll(protected, phdrs, bias, passes[..|passes| - 1]), phdrs, |phdrs|, bias, passes[|passes| - 1]);
    }
  }

  // ----- After a load -----

  /** These functions round before they add the bias, the loader after; the pages are the same. */
  lemma {:induction false} PagesAgree(p: Phdr, bias: U64)
    requires Image.Sound(p, bias) && NoWrap(p)
    ensures PagesFrom(p, bias) == Image.Lo(p, bias) && PagesTo(p, bias) == Image.Hi(p, bias)
  {
    hide PageStart, PageUp, PageOffset, PageAligned;
    var end := p.vaddr + p.memsz;
    RoundingShifts(p.vaddr, bias);
    RoundingShifts(end, bias);
    if p.vaddr + bias >= TOP {
      TopAligned();
      RoundingShifts(p.vaddr + bias, -0x1_0000_0000_0000_0000);
      RoundingShifts(end + bias, -0x1_0000_0000_0000_0000);
    }
  }

  lemma {:induction false} TopAligned()
    ensures PageAligned(-0x1_0000_0000_0000_0000)
  {
  }

  /** A loaded table has its load-time protections, and its segments are apart: what `protect` restores is
      what the loader gave. */
  lemma {:induction false} LoadGivesProtections(before: Memory, after: Memory, phdrs: seq<Phdr>, bias: U64,
                                                src: SegmentLoader.Source)
    requires Image.TableSound(phdrs, bias) && NoneWraps(phdrs) && Image.PagesApart(phdrs, bias)
    requires Image.ImagesStand(before, after, phdrs, |phdrs|, bias, src)
    ensures LoadProtections(after, phdrs, bias) && SegmentsApart(phdrs, bias)
    ensures forall i: nat, a: nat :: Image.Load(phdrs, i) && InPages(phdrs[i], bias, a) ==> after(a).Some?
  {
    hide PageStart, PageUp, PageEnd, Wrap64, PagesFrom, PagesTo, Image.Lo, Image.Hi, Image.Sound;
    forall i: nat | Image.Load(phdrs, i)
      ensures PagesFrom(phdrs[i], bias) == Image.Lo(phdrs[i], bias)
              && PagesTo(phdrs[i], bias) == Image.Hi(phdrs[i], bias)
    {
      assert NoWrap(phdrs[i]);
      PagesAgree(phdrs[i], bias);
    }
    forall i: nat, a: nat | Image.Load(phdrs, i) && InPages(phdrs[i], bias, a)
      ensures after(a).Some? && after(a).value.prot == SegmentLoader.SegmentProt(phdrs[i])
    {
      assert Image.Owns(phdrs, i, bias, a);
    }
    forall i: nat, j: nat, a: nat | i < j < |phdrs| && phdrs[i].kind == PT_LOAD == phdrs[j].kind
      ensures !(InPages(phdrs[i], bias, a) && InPages(phdrs[j], bias, a))
    {
      assert Image.Load(phdrs, i) && Image.Load(phdrs, j);
    }
  }

  /** The pages of `p` are among those of `q`, before it is known where they will be loaded. */
  predicate PagesWithin(p: Phdr, q: Phdr) {
    PageStart(q.vaddr) <= PageStart(p.vaddr) && PageUp(p.vaddr + p.memsz) <= PageUp(q.vaddr + q.memsz)
  }

  /** Every RELRO header's pages are among those of some loadable segment. */
  ghost predicate RelroInSegments(phdrs: seq<Phdr>) {
    forall i: nat :: i < |phdrs| && phdrs[i].kind == PT_GNU_RELRO ==>
      exists j: nat :: Image.Load(phdrs, j) && PagesWithin(phdrs[i], phdrs[j])
  }

  lemma {:induction false} PagesStayWithin(p: Phdr, q: Phdr, bias: U64)
    requires Image.Sound(q, bias) && NoWrap(q) && PagesWithin(p, q)
    ensures PagesFrom(q, bias) <= PagesFrom(p, bias) <= PagesTo(p, bias) <= PagesTo(q, bias)
  {
    hide PageStart, PageUp, PageOffset, PageAligned;
    var start, end, top := PageStart(p.vaddr), PageUp(p.vaddr + p.memsz), PageUp(q.vaddr + q.memsz);
    PagesAgree(q, bias);
    BelowTheTop(q.vaddr + q.memsz);
    PageStartMonotone(p.vaddr, p.vaddr + p.memsz);
    BelowBoundary(p.vaddr + p.memsz, top);
    RoundingShifts(q.vaddr, bias);
    RoundingShifts(q.vaddr + q.memsz, bias);
  }

  lemma {:induction false} BelowTheTop(x: nat)
    requires x + 4095 < 0x1_0000_0000_0000_0000
    ensures PageUp(x) + 4095 < 0x1_0000_0000_0000_0000
  {
  }

  lemma {:induction false} BelowBoundary(x: nat, top: nat)
    requires PageUp(x) <= top && top + 4095 < 0x1_0000_0000_0000_0000
    ensures x + 4095 < 0x1_0000_0000_0000_0000 && PageEnd(x) == PageUp(x)
  {
  }

  /** After a load, every page that a pass works on is mapped when each RELRO header lies in a segment. */
  lemma {:induction false} LoadMapsAll(before: Memory, after: Memory, phdrs: seq<Phdr>, bias: U64,
                                       src: SegmentLoader.Source)
    requires Image.TableSound(phdrs, bias) && NoneWraps(phdrs) && Image.PagesApart(phdrs, bias)
    requires Image.ImagesStand(before, after, phdrs, |phdrs|, bias, src) && RelroInSegments(phdrs)
    ensures AllMapped(after, phdrs, bias)
  {
    hide PagesFrom, PagesTo, Image.Lo, Image.Hi, Image.Sound, NoWrap, Image.ImagesStand, LoadProtections, SegmentsApart,
         PagesWithin;
    LoadGivesProtections(before, after, phdrs, bias, src);
    forall i: nat | Relevant(phdrs, i)
      ensures InOrder(phdrs[i], bias) && forall a: nat :: InPages(phdrs[i], bias, a) ==> after(a).Some?
    {
      if phdrs[i].kind == PT_GNU_RELRO {
        var j: nat :| Image.Load(phdrs, j) && PagesWithin(phdrs[i], phdrs[j]);
        PagesStayWithin(phdrs[i], phdrs[j], bias);
        forall a: nat | InPages(phdrs[i], bias, a) ensures after(a).Some? {
          assert InPages(phdrs[j], bias, a);
        }
      } else {
        assert Image.Load(phdrs, i);
        WithinItself(phdrs[i]);
        PagesStayWithin(phdrs[i], phdrs[i], bias);
      }
    }
  }

  lemma {:induction false} WithinItself(p: Phdr)
    ensures PagesWithin(p, p)
  {
  }

  /** The lifecycle after a load: unprotecting and protecting both succeed and give the loaded memory back, and
      RELRO, once protected, stays read-only whatever passes follow. */
  lemma {:induction false} LifecycleAfterLoad(m: Memory, phdrs: seq<Phdr>, bias: U64, src: SegmentLoader.Source,
                                              passes: seq<Pass>, a: nat)
    requires Image.TableSound(phdrs, bias) && NoneWraps(phdrs) && Image.PagesApart(phdrs, bias)
    requires RelroInSegments(phdrs) && RelroInWritable(phdrs, bias)
    requires SegmentLoader.LoadAll(m, phdrs, |phdrs|, bias, src).Loaded?
    ensures var loaded := SegmentLoader.LoadAll(m, phdrs, |phdrs|, bias, src).memory;
            var unprotected := Run(loaded, phdrs, |phdrs|, bias, Segments(true));
            var protected := Run(unprotected.memory, phdrs, |phdrs|, bias, Segments(false));
            && unprotected.ok && protected.ok && protected.memory(a) == loaded(a)
            && Run(loaded, phdrs, |phdrs|, bias, Relro).ok
            && RelroReadOnly(RunAll(Run(loaded, phdrs, |phdrs|, bias, Relro).memory, phdrs, bias, passes), phdrs, bias)
  {
    hide Run, RunAll, AllMapped, Image.ImagesStand, Image.TableSound, NoneWraps, Image.PagesApart, RelroInSegments,
         SegmentsApart, LoadProtections, RelroReadOnly, RelroInWritable, SegmentLoader.LoadAll, Touches;
    var loaded := SegmentLoader.LoadAll(m, phdrs, |phdrs|, bias, src).memory;
    Image.MemoryImage(m, phdrs, |phdrs|, bias, src);
    LoadGivesProtections(m, loaded, phdrs, bias, src);
    LoadMapsAll(m, loaded, phdrs, bias, src);
    UnprotectThenProtect(loaded, phdrs, bias, a);
    RelroStaysReadOnly(loaded, phdrs, bias, passes);
    RelroPassApart(phdrs, bias);
    PassSets(loaded, phdrs, |phdrs|, bias, Relro);
  }

  lemma {:induction false} RelroPassApart(phdrs: seq<Phdr>, bias: U64)
    ensures PassApart(phdrs, bias, Relro)
  {
  }
}
