/** `ReserveWithAlignmentPadding`: address space for a library, aligned, away from other mappings, at a
    random place in a larger block, and before a random inaccessible gap when it crosses a huge page. */
module Reservation {
  import opened Basics
  import opened Paging
  import opened ProcessMemory
  import opened LoadExtent
  import opened Alignment

  const GAP_ALIGNMENT: nat := 0x20_0000   // kGapAlignment, 2 MiB
  const MAX_GAP_UNITS: nat := 32

  /** What the code does not decide: whether this is first-stage init, where the kernel puts the block (and
      the block with the gap), and what the random generator draws. */
  datatype Environment = Environment(firstStage: bool, first: Option<nat>, second: Option<nat>, gapDraw: nat,
                                     startDraw: nat)

  /** `arc4random_uniform`: below its 32-bit bound, whatever the draw. */
  function Uniform(draw: nat, bound: nat): (r: nat)
    ensures bound > 0 ==> r < bound
    ensures bound == 0 ==> r == 0
  {
    var narrow := bound % 0x1_0000_0000;
    if narrow < 2 then 0 else draw % narrow
  }

  function Gap(env: Environment): (r: nat)
    ensures GAP_ALIGNMENT <= r <= 31 * GAP_ALIGNMENT
  {
    GAP_ALIGNMENT * if env.firstStage then 1 else Uniform(env.gapDraw, MAX_GAP_UNITS - 1) + 1
  }

  function Max(a: nat, b: nat): nat { if a < b then b else a }

  /** The size of a block in which `size` bytes can be aligned at both ends; the sum wraps around. */
  function PaddedSize(size: nat, align: nat): U64
    requires 4096 <= align <= 0x4000_0000_0000_0000 && size < 0x1_0000_0000_0000_0000
  {
    Wrap64(AlignUp(size, align) + align - 4096)
  }

  predicate PaddingFits(size: nat, align: nat)
    requires align > 0
  {
    AlignUp(size, align) + align - 4096 < 0x1_0000_0000_0000_0000
  }

  /** The block is as large as what goes into it exactly when its size does not wrap around. */
  lemma {:induction false} PaddedSizeExact(size: nat, align: nat)
    requires 4096 <= align <= 0x4000_0000_0000_0000 && size < 0x1_0000_0000_0000_0000
    ensures PaddedSize(size, align) >= size <==> PaddingFits(size, align)
  {
    hide AlignUp;
  }

  // ----- Where things go in the block -----

  /** The block [block, block + length) ends in a gap of `gap` bytes (none when 0); the first and the last
      start for the library that keep both its ends aligned inside. */
  function GapEnd(block: nat, length: nat, gap: nat): nat {
    if gap > 0 then AlignDown(block + length, GAP_ALIGNMENT) else block + length
  }

  function GapStart(block: nat, length: nat, gap: nat): int { GapEnd(block, length, gap) - gap }

  function FirstStart(block: nat, align: nat): nat
    requires align > 0
  {
    AlignUp(block, align)
  }

  function LastStart(block: nat, length: nat, gap: nat, align: nat, size: nat): int
    requires align > 0 && gap <= GapEnd(block, length, gap)
  {
    AlignDown(GapStart(block, length, gap), align) - size
  }

  lemma {:induction false} PageMultiple(x: int)
    ensures PageAligned(x) <==> Multiple(x, 4096)
  {
    if Multiple(x, 4096) {
      var k: int :| x == k * 4096;
      MultipleAligned(k);
    }
    if PageAligned(x) {
      var k := AlignedMultiple(x);
      assert x == k * 4096;
    }
  }

  /** An aligned block leaves less than the alignment, less a page, before its first aligned address. */
  lemma {:induction false} FirstFits(block: nat, align: nat)
    requires PageAligned(block) && align > 0 && Multiple(align, 4096)
    ensures block <= AlignUp(block, align) <= block + align - 4096
  {
    hide AlignUp, AlignDown, PageAligned, Multiple;
    var up := AlignUp(block, align);
    PageMultiple(block);
    MultipleOfMultiple(up, align, 4096);
    MultipleSum(block, align, 4096);
    MultiplesApart(up, block + align, 4096);
  }

  /** The block's size for a library and a gap. */
  function BlockLength(size: nat, align: nat, gap: nat): nat
    requires align >= 4096
  {
    AlignUp(size + gap, align) + align - 4096
  }

  /** The gap is in the block, and the first start is not behind the last. */
  predicate InOrder(block: nat, size: nat, align: nat, gap: nat)
    requires align >= 4096
  {
    var length := BlockLength(size, align, gap);
    && gap <= GapEnd(block, length, gap) <= block + length
    && block <= FirstStart(block, align) <= LastStart(block, length, gap, align, size)
  }

  /** Wherever the kernel puts the block: without a gap for any alignment, and with one when the alignment
      is that of the gap, the first start is not behind the last, and the library, its alignment and the
      gap lie in the block one after the other. */
  lemma {:induction false} Placement(block: nat, size: nat, align: nat, gap: nat)
    requires PageAligned(block) && align >= 4096 && Multiple(align, 4096)
    requires gap > 0 ==> align == GAP_ALIGNMENT && Multiple(gap, GAP_ALIGNMENT)
    ensures InOrder(block, size, align, gap)
  {
    hide AlignUp, AlignDown, PageAligned, Multiple;
    var room := AlignUp(size + gap, align);
    var length := room + align - 4096;
    var first := AlignUp(block, align);
    FirstFits(block, align);
    MultipleSum(first, room, align);
    AlignTight(block + length, first + room, align);
    if gap > 0 {
      var gapEnd := AlignDown(block + length, align);
      MultipleSum(gapEnd, gap, align);
      AlignedStays(gapEnd - gap, align);
    }
  }

  /** The padding is the least that does: a block of `length` bytes has room for `room` aligned bytes wherever the
      kernel puts it exactly when it is that long. */
  lemma {:induction false} PaddingIsLeast(room: nat, align: nat, length: nat)
    requires align >= 4096 && Multiple(align, 4096) && Multiple(room, align)
    ensures (forall block: nat :: PageAligned(block) ==> AlignUp(block, align) + room <= block + length) <==>
            room + align - 4096 <= length
  {
    hide AlignUp, AlignDown, PageAligned, Multiple;
    if room + align - 4096 <= length {
      forall block: nat | PageAligned(block) ensures AlignUp(block, align) + room <= block + length {
        FirstFits(block, align);
      }
    } else {
      MultipleAligned(1);
      MultipleTimes(1, align);
      RoundsTo(4096, align, align);
      assert AlignUp(4096, align) + room > 4096 + length;
    }
  }

  /** With a gap the alignment may not be larger than the gap's: the first start is never behind the last
      exactly then. */
  lemma {:induction false} GapLimitsAlignment(align: nat)
    requires PowerOfTwo(align) && align >= GAP_ALIGNMENT
    ensures (forall block: nat, size: nat, units: nat :: PageAligned(block) && units > 0 ==>
             InOrder(block, size, align, units * GAP_ALIGNMENT)) <==>
            align == GAP_ALIGNMENT
  {
    hide AlignUp, AlignDown, Multiple, PowerOfTwo, PageAligned;
    GapIsPower();
    PowersDivide(GAP_ALIGNMENT, align);
    if align == GAP_ALIGNMENT {
      forall block: nat, size: nat, units: nat | PageAligned(block) && units > 0
        ensures InOrder(block, size, align, units * GAP_ALIGNMENT)
      {
        MultipleTimes(units, GAP_ALIGNMENT);
        Placement(block, size, align, units * GAP_ALIGNMENT);
      }
    } else {
      GapTooCoarse(align);
    }
  }

  lemma {:induction false} Doubled(n: nat)
    requires PowerOfTwo(n)
    ensures PowerOfTwo(2 * n)
  {
    assert (2 * n) / 2 == n && (2 * n) % 2 == 0 && n > 0;
  }

  lemma {:induction false} TimesSixteen(n: nat)
    requires PowerOfTwo(n)
    ensures PowerOfTwo(16 * n)
  {
    hide PowerOfTwo;
    Doubled(n);
    Doubled(2 * n);
    Doubled(4 * n);
    Doubled(8 * n);
  }

  lemma {:induction false} PageIsPower()
    ensures PowerOfTwo(4096)
  {
    TimesSixteen(1);
    TimesSixteen(16);
    TimesSixteen(256);
  }

  lemma {:induction false} GapIsPower()
    ensures PowerOfTwo(GAP_ALIGNMENT) && PageAligned(GAP_ALIGNMENT) && Multiple(GAP_ALIGNMENT, 4096)
  {
    hide PowerOfTwo;
    PageMultiple(GAP_ALIGNMENT);
    PageIsPower();
    TimesSixteen(0x1000);
    TimesSixteen(0x1_0000);
    Doubled(0x10_0000);
  }

  /** A page behind an aligned address, one page of library and one unit of gap. */
  lemma {:induction false} GapTooCoarse(align: nat)
    requires Multiple(align, GAP_ALIGNMENT) && align > GAP_ALIGNMENT
    ensures PageAligned(align + 4096) && !InOrder(align + 4096, 4096, align, 1 * GAP_ALIGNMENT)
  {
    hide AlignUp, AlignDown, PageAligned, Multiple, PageStart, PageUp;
    var g := GAP_ALIGNMENT;
    GapIsPower();
    MultipleOfMultiple(align, g, 4096);
    PageMultiple(align);
    AlignedSum(align, 4096);
    MultipleTimes(1, align);
    MultipleTimes(2, align);
    MultipleTimes(3, align);
    MultipleTimes(1, g);
    MultiplesApart(g, align, g);
    // the room is one alignment, so the block is two, less a page, and ends at three
    RoundsTo(4096 + g, align, align);
    MultipleOfMultiple(3 * align, align, g);
    AlignedStays(3 * align, g);
    // the gap takes the end of the third, and rounding down from there loses the rest of it
    RoundsDownTo(3 * align - g, 2 * align, align);
    RoundsTo(align + 4096, 2 * align, align);
  }

  lemma {:induction false} RoundsTo(x: nat, m: nat, a: nat)
    requires a > 0 && Multiple(m, a) && m - a < x <= m
    ensures AlignUp(x, a) == m
  {
    hide AlignUp, AlignDown, Multiple;
    AlignTight(x, m, a);
    if AlignUp(x, a) < m {
      MultiplesApart(AlignUp(x, a), m, a);
    }
  }

  lemma {:induction false} RoundsDownTo(x: nat, m: nat, a: nat)
    requires a > 0 && Multiple(m, a) && m <= x < m + a
    ensures AlignDown(x, a) == m
  {
    hide AlignUp, AlignDown, Multiple;
    AlignTight(x, m, a);
    if m < AlignDown(x, a) {
      MultiplesApart(m, AlignDown(x, a), a);
    }
  }

  // ----- The start -----

  /** Drawing a number of steps keeps the start between the first and the last, and aligned. */
  lemma {:induction false} StepsFit(room: nat, n: nat, startAlign: nat)
    requires startAlign > 0 && n <= room / startAlign
    ensures 0 <= n * startAlign <= room && Multiple(n * startAlign, startAlign)
  {
    hide Multiple;
    MultipleTimes(n, startAlign);
    Quotient(room, startAlign);
    TimesMonotone(n, room / startAlign, startAlign);
  }

  lemma {:induction false} TimesMonotone(n: nat, m: nat, a: nat)
    requires n <= m
    ensures 0 <= n * a <= m * a
  {
    assert m * a == n * a + (m - n) * a;
  }

  /** Widening the library to the alignment stays between the first aligned address of the block and the
      last one before the gap. */
  lemma {:induction false} WidenedFits(first: nat, start: nat, size: nat, end: nat, align: nat)
    requires align > 0 && Multiple(first, align) && first <= start && start + size <= AlignDown(end, align)
    ensures first <= AlignDown(start, align) && AlignUp(start + size, align) <= AlignDown(end, align)
  {
    hide AlignUp, AlignDown, Multiple;
    AlignTight(start, first, align);
    AlignTight(start + size, AlignDown(end, align), align);
  }

  /** From the first start to the last. */
  function Room(block: nat, size: nat, align: nat, gap: nat): nat
    requires align >= 4096 && InOrder(block, size, align, gap)
  {
    LastStart(block, BlockLength(size, align, gap), gap, align, size) - FirstStart(block, align)
  }

  /** How many steps of `startAlign` the draw goes. */
  function Steps(env: Environment, room: nat, startAlign: nat): nat
    requires startAlign > 0
  {
    if env.firstStage then 0 else Uniform(env.startDraw, room / startAlign + 1)
  }

  function Times(n: nat, a: nat): nat { n * a }

  /** The start that is drawn: the first one, and as many steps behind it as the draw says. */
  function StartOf(env: Environment, block: nat, size: nat, align: nat, gap: nat, startAlign: nat): nat
    requires align >= 4096 && startAlign > 0 && InOrder(block, size, align, gap)
  {
    FirstStart(block, align) + Times(Steps(env, Room(block, size, align, gap), startAlign), startAlign)
  }

  /** Every start that will do: aligned as asked, and with the library, widened to the alignment of its mapping,
      between the start of the block and the gap. */
  ghost predicate Admissible(block: nat, size: nat, align: nat, gap: nat, startAlign: nat, start: nat)
    requires align >= 4096
  {
    && Multiple(start, startAlign) && block <= AlignDown(start, align)
    && AlignUp(start + size, align) <= GapStart(block, BlockLength(size, align, gap), gap)
  }

  /** An admissible start is a number of whole steps behind the first, and not behind the last. */
  lemma {:induction false} AdmissibleSteps(block: nat, size: nat, align: nat, gap: nat, startAlign: nat, start: nat)
    requires align >= 4096 && startAlign > 0 && Multiple(align, startAlign) && InOrder(block, size, align, gap)
    ensures var first := FirstStart(block, align);
            var last := LastStart(block, BlockLength(size, align, gap), gap, align, size);
            Admissible(block, size, align, gap, startAlign, start) <==>
            first <= start <= last && Multiple(start - first, startAlign)
  {
    hide AlignUp, AlignDown, Multiple, GapEnd, BlockLength;
    var first, gapStart := AlignUp(block, align), GapStart(block, BlockLength(size, align, gap), gap);
    MultipleOfMultiple(first, align, startAlign);
    AlignTight(block, AlignDown(start, align), align);
    AlignTight(start, first, align);
    AlignTight(gapStart, AlignUp(start + size, align), align);
    AlignTight(start + size, AlignDown(gapStart, align), align);
    if Multiple(start, startAlign) {
      MultipleSum(start, first, startAlign);
    }
    if Multiple(start - first, startAlign) {
      MultipleSum(start - first, first, startAlign);
      assert start - first + first == start;
    }
  }

  /** There are fewer than 2^32 steps, so the generator's 32-bit bound cuts nothing off. */
  lemma {:induction false} FewSteps(block: nat, size: nat, align: nat, gap: nat, startAlign: nat)
    requires 4096 <= align <= GAP_ALIGNMENT && startAlign > 0 && InOrder(block, size, align, gap)
    ensures Room(block, size, align, gap) / startAlign + 1 < 0x1_0000_0000
  {
    hide AlignUp, AlignDown, Multiple, GapEnd;
    Quotient(Room(block, size, align, gap), startAlign);
    AtMost(Room(block, size, align, gap) / startAlign, startAlign, Room(block, size, align, gap));
  }

  lemma {:induction false} AtMost(n: nat, a: nat, x: nat)
    requires a > 0 && n * a <= x
    ensures n <= x
  {
    TimesMonotone(1, a, n);
    assert n * a == a * n && 1 * n == n;
  }

  /** With fewer steps than that, every number of steps up to the last is drawn. */
  lemma {:induction false} StepsDrawn(env: Environment, room: nat, a: nat, n: nat)
    requires a > 0 && room / a + 1 < 0x1_0000_0000 && !env.firstStage
    ensures n <= room / a ==> Steps(env.(startDraw := n), room, a) == n
    ensures Steps(env, room, a) <= room / a
  {
    hide Uniform;
    if n <= room / a {
      SmallDraw(n, room / a + 1);
    }
  }

  lemma {:induction false} SmallDraw(draw: nat, bound: nat)
    requires draw < bound < 0x1_0000_0000
    ensures Uniform(draw, bound) == draw
  {
    SmallRemainder(bound, 0x1_0000_0000);
    SmallRemainder(draw, bound);
  }

  lemma {:induction false} SmallRemainder(x: nat, m: nat)
    requires x < m
    ensures x % m == x
  {
  }

  lemma {:induction false} WholeSteps(distance: int, room: nat, a: nat)
    requires a > 0
    ensures 0 <= distance <= room && Multiple(distance, a) ==> exists n: nat :: n <= room / a && Times(n, a) == distance
    ensures forall n: nat :: n <= room / a && Times(n, a) == distance ==> 0 <= distance <= room && Multiple(distance, a)
  {
    hide Multiple;
    if 0 <= distance <= room && Multiple(distance, a) {
      var n := StepsTo(distance, room, a);
      assert Times(n, a) == distance;
    }
    forall n: nat | n <= room / a && Times(n, a) == distance ensures 0 <= distance <= room && Multiple(distance, a) {
      StepsFit(room, n, a);
    }
  }

  /** A distance is drawn exactly when it is whole steps and there is room for it. */
  lemma {:induction false} DistanceDrawn(env: Environment, room: nat, a: nat, distance: int)
    requires a > 0 && room / a + 1 < 0x1_0000_0000 && !env.firstStage
    ensures 0 <= distance <= room && Multiple(distance, a) <==>
            exists draw: nat :: Times(Steps(env.(startDraw := draw), room, a), a) == distance
  {
    hide Multiple, Times, Steps;
    WholeSteps(distance, room, a);
    if n: nat :| n <= room / a && Times(n, a) == distance {
      StepsDrawn(env, room, a, n);
      assert Times(Steps(env.(startDraw := n), room, a), a) == distance;
    }
    if draw: nat :| Times(Steps(env.(startDraw := draw), room, a), a) == distance {
      StepsDrawn(env.(startDraw := draw), room, a, 0);
    }
  }

  lemma {:induction false} StepsTo(distance: nat, room: nat, a: nat) returns (n: nat)
    requires a > 0 && distance <= room && Multiple(distance, a)
    ensures distance == n * a && n <= room / a
  {
    var k: int :| distance == k * a;
    TimesBound(k, a);
    n := if k < 0 then 0 else k;
    Quotient(room, a);
    if n > room / a {
      TimesMonotone(room / a + 1, n, a);
    }
  }

  /** Outside first-stage init every admissible start is drawn for some draw, and no other start ever is. */
  lemma {:induction false} StartsReached(env: Environment, block: nat, size: nat, align: nat, gap: nat, startAlign: nat,
                                         start: nat)
    requires 4096 <= align <= GAP_ALIGNMENT && startAlign > 0 && Multiple(align, startAlign)
    requires InOrder(block, size, align, gap) && !env.firstStage
    ensures Admissible(block, size, align, gap, startAlign, start) <==>
            exists draw: nat :: StartOf(env.(startDraw := draw), block, size, align, gap, startAlign) == start
  {
    hide AlignUp, AlignDown, Multiple, InOrder, Admissible, FirstStart, LastStart, BlockLength, Steps, Times;
    var room, distance := Room(block, size, align, gap), start - FirstStart(block, align);
    InOrderBounds(block, size, align, gap);
    AdmissibleSteps(block, size, align, gap, startAlign, start);
    FewSteps(block, size, align, gap, startAlign);
    DistanceDrawn(env, room, startAlign, distance);
    if draw: nat :| Times(Steps(env.(startDraw := draw), room, startAlign), startAlign) == distance {
      assert StartOf(env.(startDraw := draw), block, size, align, gap, startAlign) == start;
    }
    if draw: nat :| StartOf(env.(startDraw := draw), block, size, align, gap, startAlign) == start {
      assert Times(Steps(env.(startDraw := draw), room, startAlign), startAlign) == distance;
    }
  }

  lemma {:induction false} InOrderBounds(block: nat, size: nat, align: nat, gap: nat)
    requires align >= 4096 && InOrder(block, size, align, gap)
    ensures gap <= GapEnd(block, BlockLength(size, align, gap), gap)
    ensures FirstStart(block, align) <= LastStart(block, BlockLength(size, align, gap), gap, align, size)
  {
  }

  /** In first-stage init there is no generator: the start is the lowest admissible one. */
  lemma {:induction false} FirstStageStart(env: Environment, block: nat, size: nat, align: nat, gap: nat,
                                           startAlign: nat, start: nat)
    requires align >= 4096 && startAlign > 0 && Multiple(align, startAlign)
    requires InOrder(block, size, align, gap) && env.firstStage
    ensures var lowest := StartOf(env, block, size, align, gap, startAlign);
            && Admissible(block, size, align, gap, startAlign, lowest)
            && (Admissible(block, size, align, gap, startAlign, start) ==> lowest <= start)
  {
    hide AlignUp, AlignDown, Multiple, Admissible;
    var first := FirstStart(block, align);
    MultipleTimes(0, startAlign);
    AdmissibleSteps(block, size, align, gap, startAlign, start);
    AdmissibleSteps(block, size, align, gap, startAlign, first);
  }

  /** The gap is one to thirty-one units of 2 MiB, each for some draw; one unit in first-stage init. */
  lemma {:induction false} GapsReached(env: Environment, gap: nat)
    ensures env.firstStage ==> Gap(env) == GAP_ALIGNMENT
    ensures !env.firstStage ==>
              ((exists units: nat :: 1 <= units <= 31 && gap == units * GAP_ALIGNMENT) <==>
               exists draw: nat :: Gap(env.(gapDraw := draw)) == gap)
  {
    if !env.firstStage {
      if units: nat :| 1 <= units <= 31 && gap == units * GAP_ALIGNMENT {
        assert Gap(env.(gapDraw := units - 1)) == gap;
      }
      if draw: nat :| Gap(env.(gapDraw := draw)) == gap {
        var units := Uniform(draw, MAX_GAP_UNITS - 1) + 1;
        assert 1 <= units <= 31 && gap == units * GAP_ALIGNMENT;
      }
    }
  }

  // ----- What stays mapped -----

  /** `gapSize` 0 is no gap. */
  datatype Reserved = Reserved(start: nat, gapStart: nat, gapSize: nat)

  predicate InLibrary(r: Reserved, size: nat, a: int) { r.start <= a < r.start + size }

  predicate InGap(r: Reserved, a: int) { r.gapStart <= a < r.gapStart + r.gapSize }

  /** Exactly the library's range and the gap are new, inaccessible, and were free before; the library starts
      aligned; and widened to `align` it overlaps neither the gap nor anything mapped before. */
  ghost predicate Holds(before: Memory, after: Memory, r: Reserved, size: nat, align: nat, startAlign: nat)
    requires align > 0
  {
    && Multiple(r.start, startAlign) && PageAligned(r.start) && r.start + size < TOP
    && (r.gapSize > 0 ==> AlignUp(r.start + size, align) <= r.gapStart)
    && (forall a: nat :: AlignDown(r.start, align) <= a < AlignUp(r.start + size, align) || InGap(r, a) ==>
        before(a) == None)
    && (forall a: nat ::
        after(a) == if InLibrary(r, size, a) || InGap(r, a) then Some(ZeroCell(PROT_NONE)) else before(a))
  }

  lemma {:induction false} HoldsBounds(before: Memory, after: Memory, r: Reserved, size: nat, align: nat,
                                       startAlign: nat)
    requires align > 0 && Holds(before, after, r, size, align, startAlign)
    ensures PageAligned(r.start) && r.start + size < TOP
    ensures forall a: nat :: InLibrary(r, size, a) || InGap(r, a) ==>
            before(a) == None && after(a) == Some(ZeroCell(PROT_NONE))
    ensures forall a: nat :: !InLibrary(r, size, a) && !InGap(r, a) ==> after(a) == before(a)
    ensures r.gapSize > 0 ==> r.start + size <= r.gapStart
  {
    hide Multiple, PageAligned;
  }

  /** The block with what lies around the library and behind the gap unmapped again. */
  function Trim(m: Memory, block: nat, length: nat, r: Reserved, size: nat, gapEnd: nat): Memory
    requires block <= r.start && r.start + size <= gapEnd - r.gapSize && gapEnd <= block + length
  {
    var gapStart := gapEnd - r.gapSize;
    var m1 := Unmap(m, block, r.start - block);
    var m2 := Unmap(m1, r.start + size, gapStart - (r.start + size));
    if gapEnd != block + length then Unmap(m2, gapEnd, block + length - gapEnd) else m2
  }

  lemma {:induction false} Trimmed(before: Memory, block: nat, length: nat, r: Reserved, size: nat, gapEnd: nat)
    requires PageAligned(block) && PageAligned(length) && PageAligned(r.start) && PageAligned(size)
             && PageAligned(gapEnd) && PageAligned(r.gapSize)
    requires block <= r.start && r.start + size <= gapEnd - r.gapSize && gapEnd <= block + length
    requires Free(before, block, length) && r.gapStart == gapEnd - r.gapSize
    ensures forall a: nat ::
              Trim(MapAnonymous(before, block, length, PROT_NONE), block, length, r, size, gapEnd)(a) ==
              if InLibrary(r, size, a) || InGap(r, a) then Some(ZeroCell(PROT_NONE)) else before(a)
  {
    hide PageStart, PageUp, PageAligned;
    AlignedSum(block, length);
    AlignedSum(gapEnd, r.gapSize);
    Boundary(block + length);
    Boundary(r.start);
    Boundary(r.gapStart);
  }

  // ----- The whole call -----

  /** The block would have the library cross a huge page. */
  predicate Crosses(block: nat, length: nat, align: nat)
    requires align > 0
  {
    var firstByte, lastByte := AlignUp(block, align), AlignDown(block + length, align) - 1;
    firstByte / GAP_ALIGNMENT != lastByte / GAP_ALIGNMENT
  }

  /** The library `shift` bytes behind the first start. */
  function Placed(block: nat, size: nat, align: nat, gap: nat, shift: nat): Reserved
    requires align >= 4096 && InOrder(block, size, align, gap)
  {
    Reserved(FirstStart(block, align) + shift, GapEnd(block, BlockLength(size, align, gap), gap) - gap, gap)
  }

  ghost predicate ShiftOk(block: nat, size: nat, align: nat, gap: nat, startAlign: nat, shift: nat)
    requires align >= 4096 && InOrder(block, size, align, gap)
  {
    && Multiple(shift, startAlign)
    && FirstStart(block, align) + shift <= LastStart(block, BlockLength(size, align, gap), gap, align, size)
  }

  /** The library lies between the block's start and the gap. */
  lemma {:induction false} PlacedFits(block: nat, size: nat, align: nat, gap: nat, startAlign: nat, shift: nat)
    requires align >= 4096 && startAlign > 0 && Multiple(align, startAlign)
    requires InOrder(block, size, align, gap) && ShiftOk(block, size, align, gap, startAlign, shift)
    ensures var r := Placed(block, size, align, gap, shift);
            && block <= FirstStart(block, align) <= AlignDown(r.start, align) && Multiple(r.start, startAlign)
            && AlignUp(r.start + size, align) <= r.gapStart
  {
    hide AlignUp, AlignDown, Multiple;
    var first, last := FirstStart(block, align), LastStart(block, BlockLength(size, align, gap), gap, align, size);
    MultipleOfMultiple(first, align, startAlign);
    MultipleSum(first, shift, startAlign);
    WidenedFits(first, first + shift, size, GapStart(block, BlockLength(size, align, gap), gap), align);
  }

  /** Placing the library in a block that holds it, and trimming the block, gives what is promised. */
  lemma {:induction false} PlacedHolds(before: Memory, block: nat, size: nat, align: nat, gap: nat, startAlign: nat,
                                       shift: nat)
    requires PageAligned(block) && PageAligned(size) && PageAligned(gap) && startAlign > 0 && Multiple(startAlign, 4096)
    requires align >= 4096 && Multiple(align, startAlign)
    requires InOrder(block, size, align, gap) && ShiftOk(block, size, align, gap, startAlign, shift)
    requires Free(before, block, BlockLength(size, align, gap)) && block + BlockLength(size, align, gap) < TOP
    ensures var length, r := BlockLength(size, align, gap), Placed(block, size, align, gap, shift);
            var gapEnd := GapEnd(block, length, gap);
            && block <= r.start && r.start + size <= gapEnd - gap
            && Holds(before, Trim(MapAnonymous(before, block, length, PROT_NONE), block, length, r, size, gapEnd), r,
                     size, align, startAlign)
  {
    hide AlignUp, AlignDown, Multiple, PageAligned, PageStart, PageUp, ShiftOk, InOrder, Placed;
    var length, r := BlockLength(size, align, gap), Placed(block, size, align, gap, shift);
    var gapEnd := GapEnd(block, length, gap);
    PlacedShape(block, size, align, gap, shift);
    PlacedFits(block, size, align, gap, startAlign, shift);
    MultipleOfMultiple(align, startAlign, 4096);
    BlockAligned(block, size, align, gap, r.start, startAlign);
    Trimmed(before, block, length, r, size, gapEnd);
    Boundary(block + length);
  }

  lemma {:induction false} PlacedShape(block: nat, size: nat, align: nat, gap: nat, shift: nat)
    requires align >= 4096 && InOrder(block, size, align, gap)
    ensures var r, gapEnd := Placed(block, size, align, gap, shift), GapEnd(block, BlockLength(size, align, gap), gap);
            r.gapSize == gap && r.gapStart == gapEnd - gap && gapEnd <= block + BlockLength(size, align, gap)
  {
  }

  lemma {:induction false} BlockAligned(block: nat, size: nat, align: nat, gap: nat, start: nat, startAlign: nat)
    requires PageAligned(block) && PageAligned(size) && PageAligned(gap) && align >= 4096 && Multiple(align, 4096)
    requires Multiple(start, startAlign) && Multiple(startAlign, 4096)
    ensures var length := BlockLength(size, align, gap);
            PageAligned(length) && PageAligned(block + length) && PageAligned(start)
              && PageAligned(GapEnd(block, length, gap))
  {
    hide AlignUp, AlignDown, Multiple, PageAligned;
    var room := AlignUp(size + gap, align);
    var length := room + align - 4096;
    MultipleOfMultiple(room, align, 4096);
    MultipleSum(room, align, 4096);
    MultipleTimes(1, 4096);
    MultipleSum(room + align, 4096, 4096);
    PageMultiple(length);
    AlignedSum(block, length);
    MultipleOfMultiple(start, startAlign, 4096);
    PageMultiple(start);
    GapIsPower();
    var down := AlignDown(block + length, GAP_ALIGNMENT);
    MultipleOfMultiple(down, GAP_ALIGNMENT, 4096);
    PageMultiple(down);
  }

  /** A page-aligned mapping of the library's own size is a reservation at page alignment. */
  lemma {:induction false} PageReservation(before: Memory, start: nat, size: nat)
    requires PageAligned(start) && PageAligned(size) && Free(before, start, size) && start + size < TOP
    ensures Holds(before, MapAnonymous(before, start, size, PROT_NONE), Reserved(start, 0, 0), size, 4096, 4096)
  {
    hide AlignUp, AlignDown, Multiple, PageAligned, PageStart, PageUp;
    AlignedSum(start, size);
    Boundary(start + size);
    PageMultiple(start);
    PageMultiple(start + size);
    AlignedStays(start, 4096);
    AlignedStays(start + size, 4096);
  }

  /** Unmapping a fresh block restores the memory. */
  lemma {:induction false} Restored(before: Memory, block: nat, length: nat)
    requires Free(before, block, length)
    ensures forall a: nat :: Unmap(MapAnonymous(before, block, length, PROT_NONE), block, length)(a) == before(a)
  {
    hide PageStart, PageUp;
  }

  lemma {:induction false} HoldsOfSame(before: Memory, same: Memory, after: Memory, r: Reserved, size: nat, align: nat,
                                       startAlign: nat)
    requires align > 0 && (forall a: nat :: same(a) == before(a)) && Holds(same, after, r, size, align, startAlign)
    ensures Holds(before, after, r, size, align, startAlign)
  {
    hide AlignUp, AlignDown, Multiple, PageAligned;
  }

  /** What the draws, the alignments and the sizes come to. */
  lemma {:induction false} GapFacts(size: nat, env: Environment)
    requires PageAligned(size) && size + 34 * GAP_ALIGNMENT < 0x1_0000_0000_0000_0000
    ensures Multiple(Gap(env), GAP_ALIGNMENT) && PageAligned(Gap(env))
    ensures BlockLength(size, GAP_ALIGNMENT, Gap(env)) == PaddedSize(size + Gap(env), GAP_ALIGNMENT)
  {
    hide AlignUp, Multiple, PageAligned, Uniform;
    GapIsPower();
    var units := if env.firstStage then 1 else Uniform(env.gapDraw, MAX_GAP_UNITS - 1) + 1;
    MultipleTimes(units, GAP_ALIGNMENT);
    assert Gap(env) == units * GAP_ALIGNMENT;
    MultipleOfMultiple(Gap(env), GAP_ALIGNMENT, 4096);
    PageMultiple(Gap(env));
  }

  lemma {:induction false} AlignmentFacts(size: nat, mappingAlign: nat, startAlign: nat)
    requires size + 34 * GAP_ALIGNMENT < 0x1_0000_0000_0000_0000
    requires PowerOfTwo(mappingAlign) && PowerOfTwo(startAlign)
    requires 4096 <= mappingAlign <= GAP_ALIGNMENT && 4096 <= startAlign <= GAP_ALIGNMENT
    ensures var align := Max(mappingAlign, startAlign);
            && Multiple(align, startAlign) && Multiple(GAP_ALIGNMENT, startAlign) && Multiple(startAlign, 4096)
               && Multiple(align, 4096)
            && BlockLength(size, align, 0) == PaddedSize(size, align)
  {
    hide AlignUp, Multiple, PowerOfTwo;
    GapIsPower();
    PageIsPower();
    PowersDivide(startAlign, Max(mappingAlign, startAlign));
    PowersDivide(startAlign, GAP_ALIGNMENT);
    PowersDivide(4096, startAlign);
    MultipleOfMultiple(Max(mappingAlign, startAlign), startAlign, 4096);
  }

  /** The library is at the drawn start in the block, and the gap, if any, ends at the block's last huge-page
      boundary. */
  ghost predicate PlacedBy(env: Environment, r: Reserved, block: nat, size: nat, align: nat, gap: nat,
                           startAlign: nat)
    requires align >= 4096 && startAlign > 0
  {
    && InOrder(block, size, align, gap) && r.start == StartOf(env, block, size, align, gap, startAlign)
    && (gap > 0 ==> r.gapStart + gap == AlignDown(block + BlockLength(size, align, gap), GAP_ALIGNMENT))
  }

  lemma {:induction false} PlacedFrom(env: Environment, r: Reserved, block: nat, size: nat, align: nat, gap: nat,
                                      startAlign: nat)
    requires align >= 4096 && startAlign > 0 && InOrder(block, size, align, gap)
    requires var steps := Steps(env, Room(block, size, align, gap), startAlign);
             r.start == FirstStart(block, align) + Times(steps, startAlign)
    requires r.gapStart == GapStart(block, BlockLength(size, align, gap), gap)
    ensures PlacedBy(env, r, block, size, align, gap, startAlign)
  {
    hide AlignUp, AlignDown, Times, Steps, Room, InOrder, FirstStart;
  }

  /** Draws how far behind the first start the library goes. */
  method DrawDistance(env: Environment, room: nat, startAlign: nat) returns (distance: nat)
    requires startAlign > 0
    ensures distance == Times(Steps(env, room, startAlign), startAlign)
    ensures distance <= room && Multiple(distance, startAlign)
  {
    hide Multiple, Uniform;
    var n := if env.firstStage then 0 else Uniform(env.startDraw, room / startAlign + 1);
    Quotient(room, startAlign);
    StepsFit(room, n, startAlign);
    distance := n * startAlign;
  }

  /** The tail of the call: draw a start in the mapped block and unmap what is not needed. */
  method PlaceAndTrim(process: Process, ghost before: Memory, block: nat, size: nat, align: nat, gap: nat,
                      startAlign: nat, env: Environment)
    returns (r: Reserved)
    requires PageAligned(block) && PageAligned(size) && PageAligned(gap) && startAlign > 0 && Multiple(startAlign, 4096)
    requires align >= 4096 && Multiple(align, startAlign) && Multiple(align, 4096)
    requires gap > 0 ==> align == GAP_ALIGNMENT && Multiple(gap, GAP_ALIGNMENT)
    requires Free(before, block, BlockLength(size, align, gap)) && block + BlockLength(size, align, gap) < TOP
    requires process.memory == MapAnonymous(before, block, BlockLength(size, align, gap), PROT_NONE)
    modifies process
    ensures Holds(before, process.memory, r, size, align, startAlign) && r.gapSize == gap
    ensures PlacedBy(env, r, block, size, align, gap, startAlign)
  {
    hide AlignUp, AlignDown, Multiple, PageAligned, PageStart, PageUp, Holds, Uniform, Steps, Times, PlacedBy, StartOf;
    var length := BlockLength(size, align, gap);
    Placement(block, size, align, gap);
    var gapEnd := if gap > 0 then AlignDown(block + length, GAP_ALIGNMENT) else block + length;
    var gapStart := gapEnd - gap;
    var first, last := AlignUp(block, align), AlignDown(gapStart, align) - size;
    var distance := DrawDistance(env, last - first, startAlign);
    var start := first + distance;
    PlacedHolds(before, block, size, align, gap, startAlign, distance);
    process.Munmap(block, start - block);
    process.Munmap(start + size, gapStart - (start + size));
    if gapEnd != block + length {
      process.Munmap(gapEnd, block + length - gapEnd);
    }
    r := Reserved(start, gapStart, gap);
    PlacedFrom(env, r, block, size, align, gap, startAlign);
  }

  /** The first block the kernel gives has the library cross a huge page. */
  predicate NeedsGap(env: Environment, size: nat, align: nat)
    requires 4096 <= align <= GAP_ALIGNMENT && size < TOP
  {
    env.first.Some? && align > 4096 && Crosses(env.first.value, PaddedSize(size, align), align)
  }

  /** The kernel grants what is asked of it: a block, and one with a gap when that is needed. */
  predicate Granted(env: Environment, size: nat, align: nat)
    requires 4096 <= align <= GAP_ALIGNMENT && size < TOP
  {
    env.first.Some? && (NeedsGap(env, size, align) ==> env.second.Some?)
  }

  /** The alignment that the library keeps clear of other mappings. */
  function InForce(env: Environment, size: nat, align: nat): (r: nat)
    requires 4096 <= align <= GAP_ALIGNMENT && size < TOP
    ensures align <= r <= GAP_ALIGNMENT
  {
    if NeedsGap(env, size, align) then GAP_ALIGNMENT else align
  }

  /** The library is placed by the draws in the block that the kernel has granted for it. */
  ghost predicate Chosen(env: Environment, r: Reserved, size: nat, align: nat, startAlign: nat)
    requires 4096 <= align <= GAP_ALIGNMENT && size < TOP && startAlign > 0
  {
    && Granted(env, size, align)
    && if NeedsGap(env, size, align) then PlacedBy(env, r, env.second.value, size, GAP_ALIGNMENT, Gap(env), startAlign)
       else PlacedBy(env, r, env.first.value, size, align, 0, startAlign)
  }

  /** The block that the kernel has granted in the end, and the gap in it. */
  function GrantedBlock(env: Environment, size: nat, align: nat): (r: nat)
    requires 4096 <= align <= GAP_ALIGNMENT && size < TOP && Granted(env, size, align)
  {
    if NeedsGap(env, size, align) then env.second.value else env.first.value
  }

  function GapIn(env: Environment, size: nat, align: nat): nat
    requires 4096 <= align <= GAP_ALIGNMENT && size < TOP
  {
    if NeedsGap(env, size, align) then Gap(env) else 0
  }

  /** Over the draws, outside first-stage init, the result starts exactly at the admissible places of the granted
      block: the library can be anywhere in it that its alignments allow. */
  lemma {:induction false} StartsOfTheCall(env: Environment, size: nat, align: nat, startAlign: nat, start: nat)
    requires 4096 <= align <= GAP_ALIGNMENT && size < TOP && Granted(env, size, align) && !env.firstStage
    requires PowerOfTwo(align) && PowerOfTwo(startAlign) && startAlign <= align
    requires PageAligned(GrantedBlock(env, size, align))
    ensures Admissible(GrantedBlock(env, size, align), size, InForce(env, size, align), GapIn(env, size, align),
                       startAlign, start) <==>
            exists draw: nat, r: Reserved :: Chosen(env.(startDraw := draw), r, size, align, startAlign)
                                             && r.start == start
  {
    hide AlignUp, AlignDown, Multiple, PageAligned, PowerOfTwo, NeedsGap, Admissible, PlacedBy, Gap, InOrder, Chosen,
         Granted, GrantedBlock, GapIn, InForce, StartOf;
    var block, force, gap := GrantedBlock(env, size, align), InForce(env, size, align), GapIn(env, size, align);
    CallInOrder(env, size, align, startAlign);
    StartsReached(env, block, size, force, gap, startAlign, start);
    if draw: nat :| StartOf(env.(startDraw := draw), block, size, force, gap, startAlign) == start {
      var r := Somewhere(env.(startDraw := draw), block, size, force, gap, startAlign);
      SameCall(env, draw, r, size, align, startAlign);
      PlacedAt(env.(startDraw := draw), r, block, size, force, gap, startAlign);
      assert Chosen(env.(startDraw := draw), r, size, align, startAlign);
    }
    if draw: nat, r: Reserved :| Chosen(env.(startDraw := draw), r, size, align, startAlign) && r.start == start {
      SameCall(env, draw, r, size, align, startAlign);
      PlacedAt(env.(startDraw := draw), r, block, size, force, gap, startAlign);
    }
  }

  lemma {:induction false} PlacedAt(env: Environment, r: Reserved, block: nat, size: nat, align: nat, gap: nat,
                                    startAlign: nat)
    requires align >= 4096 && startAlign > 0 && PlacedBy(env, r, block, size, align, gap, startAlign)
    ensures InOrder(block, size, align, gap) && r.start == StartOf(env, block, size, align, gap, startAlign)
  {
  }

  lemma {:induction false} Somewhere(env: Environment, block: nat, size: nat, align: nat, gap: nat, startAlign: nat)
    returns (r: Reserved)
    requires align >= 4096 && startAlign > 0 && InOrder(block, size, align, gap)
    ensures PlacedBy(env, r, block, size, align, gap, startAlign)
  {
    hide AlignUp, AlignDown;
    var end := GapEnd(block, BlockLength(size, align, gap), gap);
    r := Reserved(StartOf(env, block, size, align, gap, startAlign), end - gap, gap);
  }

  /** Nothing but the start depends on its draw. */
  lemma {:induction false} SameCall(env: Environment, draw: nat, r: Reserved, size: nat, align: nat, startAlign: nat)
    requires 4096 <= align <= GAP_ALIGNMENT && size < TOP && Granted(env, size, align) && startAlign > 0
    ensures var block, force, gap := GrantedBlock(env, size, align), InForce(env, size, align), GapIn(env, size, align);
            Chosen(env.(startDraw := draw), r, size, align, startAlign) <==>
            PlacedBy(env.(startDraw := draw), r, block, size, force, gap, startAlign)
  {
    hide Crosses, PaddedSize, Uniform, PlacedBy, AlignUp, AlignDown;
  }

  lemma {:induction false} CallInOrder(env: Environment, size: nat, align: nat, startAlign: nat)
    requires 4096 <= align <= GAP_ALIGNMENT && size < TOP && Granted(env, size, align)
    requires PowerOfTwo(align) && PowerOfTwo(startAlign) && startAlign <= align
    requires PageAligned(GrantedBlock(env, size, align))
    ensures startAlign > 0 && Multiple(InForce(env, size, align), startAlign)
    ensures InOrder(GrantedBlock(env, size, align), size, InForce(env, size, align), GapIn(env, size, align))
  {
    hide AlignUp, AlignDown, Multiple, PageAligned, NeedsGap, Uniform, InOrder, PowerOfTwo;
    PageIsPower();
    GapIsPower();
    PowersDivide(startAlign, align);
    PowersDivide(startAlign, GAP_ALIGNMENT);
    PowersDivide(4096, align);
    PowerPositive(startAlign);
    var units := if env.firstStage then 1 else Uniform(env.gapDraw, MAX_GAP_UNITS - 1) + 1;
    MultipleTimes(units, GAP_ALIGNMENT);
    assert Gap(env) == units * GAP_ALIGNMENT;
    Placement(GrantedBlock(env, size, align), size, InForce(env, size, align), GapIn(env, size, align));
  }

  lemma {:induction false} PowerPositive(n: nat)
    requires PowerOfTwo(n)
    ensures n > 0
  {
  }

  /** A gap is needed exactly when a huge-page boundary lies properly inside the aligned part of the first block. */
  lemma {:induction false} NeedsGapExactly(env: Environment, size: nat, align: nat)
    requires 4096 <= align <= GAP_ALIGNMENT && Multiple(GAP_ALIGNMENT, align) && 0 < size < TOP
    requires env.first.Some? && PageAligned(env.first.value) && Multiple(align, 4096) && PaddingFits(size, align)
    ensures var block := env.first.value;
            var first, end := AlignUp(block, align), AlignDown(block + PaddedSize(size, align), align);
            NeedsGap(env, size, align) <==>
            align > 4096 && exists boundary: int :: Multiple(boundary, GAP_ALIGNMENT) && first < boundary < end
  {
    hide AlignUp, AlignDown, Multiple, PageAligned, PaddedSize;
    var block := env.first.value;
    var first, end := AlignUp(block, align), AlignDown(block + PaddedSize(size, align), align);
    RoomForOne(block, size, align);
    BoundaryBetween(first, end - 1);
    if boundary: int :| Multiple(boundary, GAP_ALIGNMENT) && first < boundary < end {
      assert first < boundary <= end - 1;
    }
  }

  lemma {:induction false} RoomForOne(block: nat, size: nat, align: nat)
    requires 4096 <= align <= GAP_ALIGNMENT && 0 < size < TOP && PageAligned(block) && Multiple(align, 4096)
    requires PaddingFits(size, align)
    ensures AlignUp(block, align) < AlignDown(block + PaddedSize(size, align), align)
  {
    hide AlignUp, AlignDown, Multiple, PageAligned;
    var first, room := AlignUp(block, align), AlignUp(size, align);
    FirstFits(block, align);
    MultipleSum(first, room, align);
    AlignTight(block + room + align - 4096, first + room, align);
  }

  /** Two addresses are in different huge pages exactly when a boundary is between them. */
  lemma {:induction false} BoundaryBetween(a: nat, b: nat)
    requires a <= b
    ensures a / GAP_ALIGNMENT != b / GAP_ALIGNMENT <==>
            exists boundary: int :: Multiple(boundary, GAP_ALIGNMENT) && a < boundary <= b
  {
    hide Multiple;
    var g := GAP_ALIGNMENT;
    if a / g != b / g {
      MultipleTimes(b / g, g);
      assert Multiple(b / g * g, g) && a < b / g * g <= b;
    }
    if boundary: int :| Multiple(boundary, g) && a < boundary <= b {
      InDifferentPages(a, boundary, b);
    }
  }

  lemma {:induction false} InDifferentPages(a: nat, boundary: int, b: nat)
    requires Multiple(boundary, GAP_ALIGNMENT) && a < boundary <= b
    ensures a / GAP_ALIGNMENT != b / GAP_ALIGNMENT
  {
    var k: int :| boundary == k * GAP_ALIGNMENT;
  }

  /** A block of the library's own size leaves one start. */
  lemma {:induction false} PagePlaced(env: Environment, block: nat, size: nat)
    requires PageAligned(block) && PageAligned(size)
    ensures PlacedBy(env, Reserved(block, 0, 0), block, size, 4096, 0, 4096)
  {
    hide AlignUp, AlignDown, Multiple, PageAligned;
    PageMultiple(block);
    PageMultiple(size);
    MultipleSum(block, size, 4096);
    AlignedStays(block, 4096);
    AlignedStays(size, 4096);
    AlignedStays(block + size, 4096);
    assert BlockLength(size, 4096, 0) == size;
  }

  /** Half a megabyte at 256 KiB, in a block that starts 256 KiB before a huge page: it needs a gap. */
  lemma {:induction false} GapNeededExample(env: Environment)
    requires env.first == Some(0x1C_0000)
    ensures NeedsGap(env, 0x8_0000, 0x4_0000)
  {
    hide AlignUp, AlignDown, Multiple;
    MultipleTimes(2, 0x4_0000);
    MultipleTimes(7, 0x4_0000);
    MultipleTimes(9, 0x4_0000);
    AlignedStays(0x8_0000, 0x4_0000);
    AlignedStays(0x1C_0000, 0x4_0000);
    RoundsDownTo(0x27_F000, 0x24_0000, 0x4_0000);
  }

  /** For every size in whole pages, powers of two of at least a page and at most 2 MiB as alignments, every
      answer of the kernel and every draw: either nothing changes, or exactly the library and the gap are
      new, the library is where the draw puts it, it starts aligned, and widened to the alignment in force it
      meets nothing else. */
  method ReserveWithAlignmentPadding(process: Process, size: nat, mappingAlign: nat, startAlign: nat, env: Environment)
    returns (r: Option<Reserved>)
    requires PageAligned(size) && size + 34 * GAP_ALIGNMENT < 0x1_0000_0000_0000_0000
    requires PowerOfTwo(mappingAlign) && PowerOfTwo(startAlign)
    requires 4096 <= mappingAlign <= GAP_ALIGNMENT && 4096 <= startAlign <= GAP_ALIGNMENT
    requires var align := Max(mappingAlign, startAlign);
             && Choice(process.memory, env.first, if align == 4096 then size else PaddedSize(size, align))
             && Choice(process.memory, env.second, PaddedSize(size + Gap(env), GAP_ALIGNMENT))
    modifies process
    ensures var align := Max(mappingAlign, startAlign);
            && (r.Some? <==> Granted(env, size, align))
            && (r.Some? ==> r.value.gapSize == if NeedsGap(env, size, align) then Gap(env) else 0)
            && (r.Some? ==> Chosen(env, r.value, size, align, startAlign))
            && (r.Some? ==> Holds(old(process.memory), process.memory, r.value, size, InForce(env, size, align),
                                  startAlign))
    ensures r == None ==> forall a: nat :: process.memory(a) == old(process.memory)(a)
  {
    hide AlignUp, AlignDown, Multiple, PageAligned, PageStart, PageUp, Holds, PowerOfTwo, Gap, Wrap64;
    var align := Max(mappingAlign, startAlign);
    AlignmentFacts(size, mappingAlign, startAlign);
    GapFacts(size, env);
    var length := if align == 4096 then size else PaddedSize(size, align);
    process.MmapAnywhere(length, PROT_NONE, env.first);
    if env.first == None {
      return None;
    }
    var block := env.first.value;
    if align == 4096 {
      PageReservation(old(process.memory), block, size);
      PagePlaced(env, block, size);
      return Some(Reserved(block, 0, 0));
    }
    var firstByte, lastByte := AlignUp(block, align), AlignDown(block + length, align) - 1;
    if firstByte / GAP_ALIGNMENT != lastByte / GAP_ALIGNMENT {
      Restored(old(process.memory), block, length);
      process.Munmap(block, length);
      var gap := Gap(env);
      ghost var same := process.memory;
      process.MmapAnywhere(PaddedSize(size + gap, GAP_ALIGNMENT), PROT_NONE, env.second);
      if env.second == None {
        return None;
      }
      GapIsPower();
      var placed := PlaceAndTrim(process, same, env.second.value, size, GAP_ALIGNMENT, gap, startAlign, env);
      HoldsOfSame(old(process.memory), same, process.memory, placed, size, GAP_ALIGNMENT, startAlign);
      return Some(placed);
    }
    MultipleAligned(0);
    var placed := PlaceAndTrim(process, old(process.memory), block, size, align, 0, startAlign, env);
    r := Some(placed);
  }
}
