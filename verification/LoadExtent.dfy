/** The extent of a program header table: how much address space its loadable segments need, and at
    which alignment. */
module LoadExtent {
  import opened Basics
  import opened Paging

  const PT_LOAD: U32 := 1
  const PT_PHDR: U32 := 6
  const PT_GNU_RELRO: U32 := 0x6474_e552

  /** A program header; the three flag bits are separate. */
  datatype Phdr = Phdr(kind: U32, read: bool, write: bool, exec: bool,
                       offset: U64, vaddr: U64, filesz: U64, memsz: U64, align: U64)

  // ----- The smallest interval of pages -----

  /** The lowest segment address among the first `n` headers, or the largest address there is. */
  function MinVaddr(phdrs: seq<Phdr>, n: nat): U64
    requires n <= |phdrs|
  {
    if n == 0 then 0xFFFF_FFFF_FFFF_FFFF
    else
      var before, p := MinVaddr(phdrs, n - 1), phdrs[n - 1];
      if p.kind == PT_LOAD && p.vaddr < before then p.vaddr else before
  }

  /** The highest segment end, as the 64-bit sum gives it. */
  function MaxEnd(phdrs: seq<Phdr>, n: nat): U64
    requires n <= |phdrs|
  {
    if n == 0 then 0
    else
      var before, p := MaxEnd(phdrs, n - 1), phdrs[n - 1];
      if p.kind == PT_LOAD && Wrap64(p.vaddr + p.memsz) > before then Wrap64(p.vaddr + p.memsz) else before
  }

  predicate HasLoad(phdrs: seq<Phdr>, n: nat)
    requires n <= |phdrs|
  {
    n > 0 && (HasLoad(phdrs, n - 1) || phdrs[n - 1].kind == PT_LOAD)
  }

  /** A segment whose end, rounded up to a page, is still an address. */
  predicate NoWrap(p: Phdr) { p.vaddr + p.memsz + 4095 < 0x1_0000_0000_0000_0000 }

  predicate NoneWraps(phdrs: seq<Phdr>) {
    forall i :: 0 <= i < |phdrs| && phdrs[i].kind == PT_LOAD ==> NoWrap(phdrs[i])
  }

  /** [lo, hi) contains every loadable segment. */
  predicate Covers(phdrs: seq<Phdr>, lo: int, hi: int) {
    forall i :: 0 <= i < |phdrs| && phdrs[i].kind == PT_LOAD ==>
      lo <= phdrs[i].vaddr && phdrs[i].vaddr + phdrs[i].memsz <= hi
  }

  function MinPage(phdrs: seq<Phdr>): U64 {
    PageStart(if HasLoad(phdrs, |phdrs|) then MinVaddr(phdrs, |phdrs|) else 0)
  }

  function MaxPage(phdrs: seq<Phdr>): U64 { PageEnd(MaxEnd(phdrs, |phdrs|)) }

  function LoadSize(phdrs: seq<Phdr>): U64 { Wrap64(MaxPage(phdrs) - MinPage(phdrs)) }

  /** `phdr_table_get_load_size` */
  method GetLoadSize(phdrs: seq<Phdr>) returns (size: U64, minPage: U64, maxPage: U64)
    ensures size == LoadSize(phdrs) && minPage == MinPage(phdrs) && maxPage == MaxPage(phdrs)
  {
    hide PageStart, PageUp, PageEnd, Wrap64;
    var minVaddr: U64, maxVaddr: U64 := 0xFFFF_FFFF_FFFF_FFFF, 0;
    var found := false;
    for i := 0 to |phdrs|
      invariant minVaddr == MinVaddr(phdrs, i) && maxVaddr == MaxEnd(phdrs, i) && found == HasLoad(phdrs, i)
    {
      var p := phdrs[i];
      if p.kind != PT_LOAD {
        continue;
      }
      found := true;
      if p.vaddr < minVaddr {
        minVaddr := p.vaddr;
      }
      if Wrap64(p.vaddr + p.memsz) > maxVaddr {
        maxVaddr := Wrap64(p.vaddr + p.memsz);
      }
    }
    if !found {
      minVaddr := 0;
    }
    minPage, maxPage := PageStart(minVaddr), PageEnd(maxVaddr);
    size := Wrap64(maxPage - minPage);
  }

  lemma {:induction false} MinIsLowest(phdrs: seq<Phdr>, n: nat)
    requires n <= |phdrs|
    ensures forall i :: 0 <= i < n && phdrs[i].kind == PT_LOAD ==> MinVaddr(phdrs, n) <= phdrs[i].vaddr
    ensures if HasLoad(phdrs, n) then exists i ::
            0 <= i < n && phdrs[i].kind == PT_LOAD && MinVaddr(phdrs, n) == phdrs[i].vaddr
            else MinVaddr(phdrs, n) == 0xFFFF_FFFF_FFFF_FFFF
  {
    if n > 0 {
      MinIsLowest(phdrs, n - 1);
      var before, last := MinVaddr(phdrs, n - 1), phdrs[n - 1];
      if last.kind == PT_LOAD && last.vaddr <= before {
        assert MinVaddr(phdrs, n) == phdrs[n - 1].vaddr;
      } else if HasLoad(phdrs, n - 1) {
        var i :| 0 <= i < n - 1 && phdrs[i].kind == PT_LOAD && before == phdrs[i].vaddr;
        assert MinVaddr(phdrs, n) == phdrs[i].vaddr;
      }
    }
  }

  lemma {:induction false} MaxIsHighest(phdrs: seq<Phdr>, n: nat)
    requires n <= |phdrs| && NoneWraps(phdrs)
    ensures forall i :: 0 <= i < n && phdrs[i].kind == PT_LOAD ==> phdrs[i].vaddr + phdrs[i].memsz <= MaxEnd(phdrs, n)
    ensures MaxEnd(phdrs, n) == 0 ||
            exists i :: 0 <= i < n && phdrs[i].kind == PT_LOAD && MaxEnd(phdrs, n) == phdrs[i].vaddr + phdrs[i].memsz
  {
    if n > 0 {
      MaxIsHighest(phdrs, n - 1);
      var last := phdrs[n - 1];
      if last.kind == PT_LOAD {
        assert NoWrap(last);
        if MaxEnd(phdrs, n - 1) < last.vaddr + last.memsz {
          assert MaxEnd(phdrs, n) == phdrs[n - 1].vaddr + phdrs[n - 1].memsz;
        }
      }
    }
  }

  /** The extent is the least page-aligned interval that covers every loadable segment: it covers, and
      any page-aligned interval that covers contains it. */
  lemma {:induction false} ExtentIsLeast(phdrs: seq<Phdr>)
    requires NoneWraps(phdrs) && HasLoad(phdrs, |phdrs|)
    ensures PageAligned(MinPage(phdrs)) && PageAligned(MaxPage(phdrs)) && MinPage(phdrs) <= MaxPage(phdrs)
    ensures LoadSize(phdrs) == MaxPage(phdrs) - MinPage(phdrs)
    ensures Covers(phdrs, MinPage(phdrs), MaxPage(phdrs))
    ensures forall lo: nat, hi: nat :: PageAligned(lo) && PageAligned(hi) && Covers(phdrs, lo, hi) ==>
              lo <= MinPage(phdrs) && MaxPage(phdrs) <= hi
  {
    hide PageStart, PageUp, PageEnd, Wrap64;
    ExtentCovers(phdrs);
    forall lo: nat, hi: nat | PageAligned(lo) && PageAligned(hi) && Covers(phdrs, lo, hi)
      ensures lo <= MinPage(phdrs) && MaxPage(phdrs) <= hi
    {
      ExtentIsInside(phdrs, lo, hi);
    }
  }

  lemma {:induction false} LowestBelowHighest(phdrs: seq<Phdr>)
    requires NoneWraps(phdrs) && HasLoad(phdrs, |phdrs|)
    ensures MinVaddr(phdrs, |phdrs|) <= MaxEnd(phdrs, |phdrs|)
    ensures MaxEnd(phdrs, |phdrs|) + 4095 < 0x1_0000_0000_0000_0000
  {
    MinIsLowest(phdrs, |phdrs|);
    MaxIsHighest(phdrs, |phdrs|);
    HighestFits(phdrs);
  }

  lemma {:induction false} ExtentCovers(phdrs: seq<Phdr>)
    requires NoneWraps(phdrs) && HasLoad(phdrs, |phdrs|)
    ensures PageAligned(MinPage(phdrs)) && PageAligned(MaxPage(phdrs)) && MinPage(phdrs) <= MaxPage(phdrs)
    ensures Covers(phdrs, MinPage(phdrs), MaxPage(phdrs)) && LoadSize(phdrs) == MaxPage(phdrs) - MinPage(phdrs)
  {
    hide PageStart, PageUp, PageEnd, Wrap64;
    MinIsLowest(phdrs, |phdrs|);
    MaxIsHighest(phdrs, |phdrs|);
    LowestBelowHighest(phdrs);
    assert MinPage(phdrs) <= MinVaddr(phdrs, |phdrs|) && MaxEnd(phdrs, |phdrs|) <= MaxPage(phdrs);
  }

  lemma {:induction false} ExtentIsInside(phdrs: seq<Phdr>, lo: nat, hi: nat)
    requires NoneWraps(phdrs) && HasLoad(phdrs, |phdrs|)
    requires PageAligned(lo) && PageAligned(hi) && Covers(phdrs, lo, hi)
    ensures lo <= MinPage(phdrs) && MaxPage(phdrs) <= hi
  {
    hide PageStart, PageUp, PageEnd, Wrap64;
    MinIsLowest(phdrs, |phdrs|);
    MaxIsHighest(phdrs, |phdrs|);
    HighestFits(phdrs);
    RoundingIsTight(MinVaddr(phdrs, |phdrs|), lo);
    RoundingIsTight(MaxEnd(phdrs, |phdrs|), hi);
  }

  lemma {:induction false} HighestFits(phdrs: seq<Phdr>)
    requires NoneWraps(phdrs)
    ensures MaxEnd(phdrs, |phdrs|) + 4095 < 0x1_0000_0000_0000_0000
  {
    MaxIsHighest(phdrs, |phdrs|);
    if MaxEnd(phdrs, |phdrs|) != 0 {
      var i :| 0 <= i < |phdrs| && phdrs[i].kind == PT_LOAD
        && MaxEnd(phdrs, |phdrs|) == phdrs[i].vaddr + phdrs[i].memsz;
      assert NoWrap(phdrs[i]);
    }
  }

  /** Whatever the table, the extent is whole pages. */
  lemma {:induction false} LoadSizeAligned(phdrs: seq<Phdr>)
    ensures PageAligned(LoadSize(phdrs))
  {
    hide PageStart, PageUp, PageEnd, PageAligned;
    AlignedSum(MaxPage(phdrs), MinPage(phdrs));
    MultipleAligned(0x10_0000_0000_0000);
    AlignedSum(MaxPage(phdrs) - MinPage(phdrs), 0x1_0000_0000_0000_0000);
  }

  /** A table with nothing to load has extent zero. */
  lemma {:induction false} NothingToLoad(phdrs: seq<Phdr>, n: nat)
    requires n <= |phdrs| && !HasLoad(phdrs, n)
    ensures MaxEnd(phdrs, n) == 0
    ensures n == |phdrs| ==> LoadSize(phdrs) == 0
  {
    hide PageStart, PageUp, PageEnd, Wrap64;
    if n > 0 {
      NothingToLoad(phdrs, n - 1);
    }
    Boundary(0);
  }

  /** The bound is needed: the extent covers every loadable segment exactly when none of them ends within
      a page of the top of the address space or beyond. */
  lemma {:induction false} CoversExactly(phdrs: seq<Phdr>)
    requires HasLoad(phdrs, |phdrs|)
    ensures Covers(phdrs, MinPage(phdrs), MaxPage(phdrs)) <==> NoneWraps(phdrs)
  {
    hide PageStart, PageUp, PageEnd, Wrap64;
    if NoneWraps(phdrs) {
      ExtentCovers(phdrs);
    } else {
      var i :| 0 <= i < |phdrs| && phdrs[i].kind == PT_LOAD && !NoWrap(phdrs[i]);
      assert MaxPage(phdrs) <= 0xFFFF_FFFF_FFFF_F000;
    }
  }

  /** A segment that ends at the top of the address space: the extent misses it. */
  lemma {:induction false} ExtentMissesTop()
    ensures var phdrs := [Phdr(PT_LOAD, true, false, false, 0, 0xFFFF_FFFF_FFFF_F000, 0x1000, 0x1000, 4096)];
            !Covers(phdrs, MinPage(phdrs), MaxPage(phdrs))
  {
    hide PageStart, PageUp, PageEnd, Covers;
    var phdrs := [Phdr(PT_LOAD, true, false, false, 0, 0xFFFF_FFFF_FFFF_F000, 0x1000, 0x1000, 4096)];
    assert HasLoad(phdrs, 1);
    assert phdrs[0].kind == PT_LOAD && !NoWrap(phdrs[0]);
    CoversExactly(phdrs);
  }

  // ----- Alignment -----

  predicate PowerOfTwo(n: nat) { n == 1 || (n > 0 && n % 2 == 0 && PowerOfTwo(n / 2)) }

  /** `(align & (align - 1)) == 0` */
  predicate AlignmentOk(align: nat) { align == 0 || PowerOfTwo(align) }

  predicate Counts(p: Phdr) { p.kind == PT_LOAD && AlignmentOk(p.align) }

  /** `phdr_table_get_maximum_alignment` on a 64-bit target: the largest well-formed alignment of a
      loadable segment, and at least a page. */
  method GetMaximumAlignment(phdrs: seq<Phdr>) returns (maximum: U64)
    ensures maximum == 4096 || exists i :: 0 <= i < |phdrs| && Counts(phdrs[i]) && phdrs[i].align == maximum
    ensures maximum >= 4096 && forall i :: 0 <= i < |phdrs| && Counts(phdrs[i]) ==> phdrs[i].align <= maximum
  {
    maximum := 4096;
    for i := 0 to |phdrs|
      invariant maximum == 4096 || exists k :: 0 <= k < i && Counts(phdrs[k]) && phdrs[k].align == maximum
      invariant maximum >= 4096 && forall k :: 0 <= k < i && Counts(phdrs[k]) ==> phdrs[k].align <= maximum
    {
      var p := phdrs[i];
      if p.kind != PT_LOAD || !AlignmentOk(p.align) {
        continue;
      }
      if p.align > maximum {
        maximum := p.align;
      }
    }
  }
}
