/** Page and alignment arithmetic on 64-bit addresses. */
module Paging {
  import opened Basics

  const TOP: nat := 0x1_0000_0000_0000_0000

  /** What is left of a sum or difference of two unsigned 64-bit numbers. */
  function Wrap64(x: int): (r: U64)
    requires -0x1_0000_0000_0000_0000 < x < 0x2_0000_0000_0000_0000
    ensures 0 <= x < 0x1_0000_0000_0000_0000 ==> r == x
  {
    if x < 0 then x + 0x1_0000_0000_0000_0000
    else if x < 0x1_0000_0000_0000_0000 then x
    else x - 0x1_0000_0000_0000_0000
  }

  predicate PageAligned(x: int) { x % 4096 == 0 }

  function PageOffset(x: nat): nat { x % 4096 }

  function PageStart(x: nat): (r: nat)
    ensures r <= x < r + 4096 && PageAligned(r)
  {
    x - x % 4096
  }

  /** The next page boundary, without wrap-around. */
  function PageUp(x: nat): (r: nat)
    ensures x <= r < x + 4096 && PageAligned(r)
  {
    PageStart(x + 4095)
  }

  /** `PAGE_END`, which wraps around on the last page. */
  function PageEnd(x: U64): (r: U64)
    ensures PageAligned(r) && (x + 4095 < 0x1_0000_0000_0000_0000 ==> r == PageUp(x))
  {
    PageStart(Wrap64(x + 4095))
  }

  // ----- Whole pages -----

  lemma {:induction false} MultipleAligned(k: int)
    ensures PageAligned(4096 * k)
  {
  }

  lemma {:induction false} AlignedMultiple(x: int) returns (k: int)
    requires PageAligned(x)
    ensures x == 4096 * k
  {
    k := x / 4096;
  }

  lemma {:induction false} AlignedSum(a: int, b: int)
    requires PageAligned(a) && PageAligned(b)
    ensures PageAligned(a + b) && PageAligned(a - b)
  {
    var i := AlignedMultiple(a);
    var j := AlignedMultiple(b);
    MultipleAligned(i + j);
    MultipleAligned(i - j);
  }

  /** Page boundaries less than a page apart are the same. */
  lemma {:induction false} SameBoundary(a: int, b: int)
    requires PageAligned(a) && PageAligned(b) && -4096 < a - b < 4096
    ensures a == b
  {
    var i := AlignedMultiple(a);
    var j := AlignedMultiple(b);
  }

  /** A boundary is its own rounding. */
  lemma {:induction false} Boundary(x: nat)
    requires PageAligned(x)
    ensures PageStart(x) == x && PageUp(x) == x && PageOffset(x) == 0
  {
    SameBoundary(PageStart(x), x);
    SameBoundary(PageUp(x), x);
  }

  lemma {:induction false} OffsetIs(x: nat)
    ensures PageOffset(x) == x - PageStart(x)
    ensures PageOffset(x) == 0 <==> PageAligned(x)
  {
  }

  /** A page boundary at or above `x` is at or above `x` rounded up; at or below, below it rounded down. */
  lemma {:induction false} RoundingIsTight(x: nat, boundary: nat)
    requires PageAligned(boundary)
    ensures x <= boundary <==> PageUp(x) <= boundary
    ensures boundary <= x <==> boundary <= PageStart(x)
  {
    var k := AlignedMultiple(boundary);
    var up := AlignedMultiple(PageUp(x));
    var down := AlignedMultiple(PageStart(x));
  }

  lemma {:induction false} PageStartMonotone(x: nat, y: nat)
    requires x <= y
    ensures PageStart(x) <= PageStart(y) && PageUp(x) <= PageUp(y)
  {
    RoundingIsTight(y, PageStart(x));
    RoundingIsTight(x, PageUp(y));
  }

  /** Moving by whole pages moves the boundaries along. */
  lemma {:induction false} RoundingShifts(x: nat, shift: int)
    requires PageAligned(shift) && x + shift >= 0
    ensures PageStart(x + shift) == PageStart(x) + shift && PageUp(x + shift) == PageUp(x) + shift
    ensures PageOffset(x + shift) == PageOffset(x)
  {
    hide PageStart, PageUp;
    AlignedSum(PageStart(x), shift);
    AlignedSum(PageUp(x), shift);
    SameBoundary(PageStart(x + shift), PageStart(x) + shift);
    UpIs(x + shift, PageUp(x) + shift);
    OffsetIs(x);
    OffsetIs(x + shift);
  }

  lemma {:induction false} UpIs(x: nat, boundary: int)
    requires PageAligned(boundary) && x <= boundary < x + 4096
    ensures PageUp(x) == boundary
  {
    SameBoundary(PageUp(x), boundary);
  }
}
