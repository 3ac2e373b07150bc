/** Rounding to a multiple of any alignment. */
module Alignment {
  import opened LoadExtent

  ghost predicate Multiple(x: int, a: int) { exists k: int :: x == k * a }

  function AlignDown(x: nat, a: nat): (r: nat)
    requires a > 0
    ensures r <= x < r + a && Multiple(r, a)
  {
    Quotient(x, a);
    x / a * a
  }

  /** `align_up`, without wrap-around. */
  function AlignUp(x: nat, a: nat): (r: nat)
    requires a > 0
    ensures x <= r < x + a && Multiple(r, a)
  {
    AlignDown(x + a - 1, a)
  }

  lemma {:induction false} Quotient(x: nat, a: nat)
    requires a > 0
    ensures 0 <= x / a && x / a * a <= x < x / a * a + a && Multiple(x / a * a, a)
  {
    assert x == x / a * a + x % a;
  }

  lemma {:induction false} MultipleSum(x: int, y: int, a: int)
    requires Multiple(x, a) && Multiple(y, a)
    ensures Multiple(x + y, a) && Multiple(x - y, a)
  {
    var i: int :| x == i * a;
    var j: int :| y == j * a;
    assert x + y == (i + j) * a && x - y == (i - j) * a;
  }

  lemma {:induction false} MultipleTimes(n: int, a: int)
    ensures Multiple(n * a, a) && Multiple(a, a) && Multiple(0, a)
  {
    assert a == 1 * a && 0 == 0 * a;
  }

  lemma {:induction false} MultipleOfMultiple(x: int, b: int, a: int)
    requires Multiple(x, b) && Multiple(b, a)
    ensures Multiple(x, a)
  {
    var i: int :| x == i * b;
    var j: int :| b == j * a;
    assert x == (i * j) * a;
  }

  /** Different multiples are at least the alignment apart. */
  lemma {:induction false} MultiplesApart(x: int, y: int, a: int)
    requires a > 0 && Multiple(x, a) && Multiple(y, a) && x < y
    ensures x + a <= y
  {
    MultipleSum(y, x, a);
    var d: int :| y - x == d * a;
    TimesBound(d, a);
  }

  lemma {:induction false} TimesBound(d: int, a: int)
    requires a > 0
    ensures d >= 1 ==> d * a >= a
    ensures d <= 0 ==> d * a <= 0
  {
  }

  /** A multiple below `x` is below `x` rounded down, and one above is above `x` rounded up. */
  lemma {:induction false} AlignTight(x: nat, m: int, a: nat)
    requires a > 0 && Multiple(m, a)
    ensures m <= x ==> m <= AlignDown(x, a)
    ensures x <= m ==> AlignUp(x, a) <= m
  {
    hide AlignDown, AlignUp, Multiple;
    if AlignDown(x, a) < m <= x {
      MultiplesApart(AlignDown(x, a), m, a);
    }
    if x <= m < AlignUp(x, a) {
      MultiplesApart(m, AlignUp(x, a), a);
    }
  }

  lemma {:induction false} AlignedStays(x: nat, a: nat)
    requires a > 0 && Multiple(x, a)
    ensures AlignDown(x, a) == x && AlignUp(x, a) == x
  {
    hide AlignDown, AlignUp, Multiple;
    AlignTight(x, x, a);
  }

  /** Of two powers of two, the smaller divides the larger. */
  lemma {:induction false} PowersDivide(a: nat, b: nat)
    requires PowerOfTwo(a) && PowerOfTwo(b) && a <= b
    ensures Multiple(b, a)
    decreases b
  {
    if a == b {
      MultipleTimes(1, a);
    } else if a == 1 {
      assert b == b * 1;
    } else {
      PowersDivide(a / 2, b / 2);
      var k: int :| b / 2 == k * (a / 2);
      assert b == 2 * (b / 2) && a == 2 * (a / 2);
      assert b == k * a;
    }
  }
}
