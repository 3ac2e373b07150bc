/** Definitions shared by the whole project. */
module Basics {

  datatype Option<+T> = None | Some(value: T)

  type Byte = b: int | 0 <= b < 256

  const UINT32_MAX: int := 0xFFFF_FFFF
  const INT32_MAX: int := 0x7FFF_FFFF

  /** A 32-bit unsigned integer, as a mathematical one. */
  type U32 = n: int | 0 <= n < 0x1_0000_0000

  type U64 = n: int | 0 <= n < 0x1_0000_0000_0000_0000

  /** The unchecked conversion to (or arithmetic in) 32 bits. */
  function Wrap32(n: nat): U32 { n % 0x1_0000_0000 }

  // ----- Bytes within bytes -----

  /** `part` lies in `bs` at offset `at`. */
  predicate HoldsAt(bs: seq<Byte>, at: nat, part: seq<Byte>) {
    at + |part| <= |bs| && bs[at..at + |part|] == part
  }

  lemma HoldsSplit(bs: seq<Byte>, at: nat, a: seq<Byte>, b: seq<Byte>)
    requires HoldsAt(bs, at, a + b)
    ensures HoldsAt(bs, at, a) && HoldsAt(bs, at + |a|, b)
  {
    var whole := bs[at..at + |a + b|];
    assert whole[..|a|] == a && whole[|a|..] == b;
    assert bs[at..at + |a|] == whole[..|a|];
    assert bs[at + |a|..at + |a| + |b|] == whole[|a|..];
  }

  lemma HoldsWithin(bs: seq<Byte>, at: nat, part: seq<Byte>, off: nat, inner: seq<Byte>)
    requires HoldsAt(bs, at, part) && HoldsAt(part, off, inner)
    ensures HoldsAt(bs, at + off, inner)
  {
    forall i | 0 <= i < |inner| ensures bs[at + off + i] == inner[i] {
      assert inner[i] == part[off..off + |inner|][i] == part[off + i];
      assert part[off + i] == bs[at..at + |part|][off + i];
    }
  }

  // ----- Little-endian numbers -----

  function U32Bytes(n: U32): (bs: seq<Byte>)
    ensures |bs| == 4
  {
    [n % 256, n / 256 % 256, n / 65536 % 256, n / 16777216]
  }

  function U32At(bs: seq<Byte>, at: nat): U32
    requires at + 4 <= |bs|
  {
    var b0: int, b1: int, b2: int, b3: int := bs[at], bs[at + 1], bs[at + 2], bs[at + 3];
    b0 + 256 * b1 + 65536 * b2 + 16777216 * b3
  }

  function U64Bytes(n: U64): (bs: seq<Byte>)
    ensures |bs| == 8
  {
    U32Bytes(n % 0x1_0000_0000) + U32Bytes(n / 0x1_0000_0000)
  }

  function U64At(bs: seq<Byte>, at: nat): U64
    requires at + 8 <= |bs|
  {
    U32At(bs, at) + 0x1_0000_0000 * U32At(bs, at + 4)
  }

  /** A 32-bit number is read back wherever its four bytes lie. */
  lemma U32RoundTrip(bs: seq<Byte>, at: nat, n: U32)
    requires HoldsAt(bs, at, U32Bytes(n))
    ensures U32At(bs, at) == n
  {
    var four := bs[at..at + 4];
    assert bs[at] == four[0] && bs[at + 1] == four[1] && bs[at + 2] == four[2] && bs[at + 3] == four[3];
    Digits(n);
  }

  lemma Digits(n: U32)
    ensures n == n % 256 + 256 * (n / 256 % 256) + 65536 * (n / 65536 % 256) + 16777216 * (n / 16777216)
  {
    var q1: int := n / 256;
    var q2: int := q1 / 256;
    var q3: int := q2 / 256;
    assert n == 256 * q1 + n % 256 && q1 == 256 * q2 + q1 % 256 && q2 == 256 * q3 + q2 % 256;
    assert q2 == n / 65536 && q3 == n / 16777216;
  }

  lemma U64RoundTrip(bs: seq<Byte>, at: nat, n: U64)
    requires HoldsAt(bs, at, U64Bytes(n))
    ensures U64At(bs, at) == n
  {
    HoldsSplit(bs, at, U32Bytes(n % 0x1_0000_0000), U32Bytes(n / 0x1_0000_0000));
    U32RoundTrip(bs, at, n % 0x1_0000_0000);
    U32RoundTrip(bs, at + 4, n / 0x1_0000_0000);
  }

  // ----- Concatenation of records -----

  /** All the records one after the other. */
  function Flatten(records: seq<seq<Byte>>): seq<Byte> {
    if records == [] then [] else Flatten(records[..|records| - 1]) + records[|records| - 1]
  }

  /** Record `i` lies where the records before it end. */
  lemma {:induction false} FlattenAt(records: seq<seq<Byte>>, i: nat)
    requires i < |records|
    ensures HoldsAt(Flatten(records), |Flatten(records[..i])|, records[i])
  {
    var init := records[..|records| - 1];
    if i < |init| {
      FlattenAt(init, i);
      assert init[..i] == records[..i];
      var at := |Flatten(records[..i])|;
      assert Flatten(records)[at..at + |records[i]|] == Flatten(init)[at..at + |records[i]|];
    } else {
      assert records[..i] == init;
    }
  }

  lemma FlattenStep(records: seq<seq<Byte>>, i: nat)
    requires i < |records|
    ensures Flatten(records[..i + 1]) == Flatten(records[..i]) + records[i]
  {
    assert records[..i + 1][..i] == records[..i];
  }

  lemma {:induction false} FlattenUniform(records: seq<seq<Byte>>, size: nat)
    requires forall i :: 0 <= i < |records| ==> |records[i]| == size
    ensures |Flatten(records)| == |records| * size
  {
    if records != [] {
      FlattenUniform(records[..|records| - 1], size);
    }
  }

  /** Records of one size, wherever their table lies: record `i` is `i` sizes in. */
  lemma UniformRecordAt(bs: seq<Byte>, at: nat, records: seq<seq<Byte>>, size: nat, i: nat)
    requires i < |records| && HoldsAt(bs, at, Flatten(records))
    requires forall k :: 0 <= k < |records| ==> |records[k]| == size
    ensures HoldsAt(bs, at + i * size, records[i])
  {
    FlattenAt(records, i);
    FlattenUniform(records[..i], size);
    HoldsWithin(bs, at, Flatten(records), i * size, records[i]);
  }
}
