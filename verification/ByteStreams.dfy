/** A seekable stream over a byte file, as the store's writer and readers use it. */
module ByteStreams {
  import opened Basics
  import opened StoreFormat

  function Zeros(n: nat): (r: seq<Byte>)
    ensures |r| == n
  {
    seq(n, _ => 0)
  }

  /** The file after `bs` is written at `pos`: a gap past the end reads as zeros, and writing nothing
      changes nothing. */
  function Overwrite(data: seq<Byte>, pos: nat, bs: seq<Byte>): (r: seq<Byte>)
    ensures |r| == if bs == [] || pos + |bs| <= |data| then |data| else pos + |bs|
  {
    if bs == [] then data
    else
      (if pos <= |data| then data[..pos] else data + Zeros(pos - |data|)) + bs +
      (if pos + |bs| <= |data| then data[pos + |bs|..] else [])
  }

  /** Writing twice in a row is writing both at once. */
  lemma OverwriteTwice(data: seq<Byte>, pos: nat, a: seq<Byte>, b: seq<Byte>)
    ensures Overwrite(Overwrite(data, pos, a), pos + |a|, b) == Overwrite(data, pos, a + b)
  {
    if a == [] {
      assert a + b == b;
    } else if b == [] {
      assert a + b == a;
    } else {
      var l, r := Overwrite(Overwrite(data, pos, a), pos + |a|, b), Overwrite(data, pos, a + b);
      assert |l| == |r|;
      forall i | 0 <= i < |l| ensures l[i] == r[i] {
      }
    }
  }

  /** From file `d0` and position `p0`, exactly `bs` has been written. */
  predicate Wrote(d0: seq<Byte>, p0: nat, data: seq<Byte>, pos: nat, bs: seq<Byte>) {
    data == Overwrite(d0, p0, bs) && pos == p0 + |bs|
  }

  lemma WroteMore(d0: seq<Byte>, p0: nat, data: seq<Byte>, pos: nat, a: seq<Byte>, b: seq<Byte>)
    requires Wrote(d0, p0, data, pos, a)
    ensures Wrote(d0, p0, Overwrite(data, pos, b), pos + |b|, a + b)
  {
    OverwriteTwice(d0, p0, a, b);
  }

  /** Writing over the front of a file that is long enough, or exactly filling the gap before it. */
  lemma OverwriteFront(front: seq<Byte>, rest: seq<Byte>, bs: seq<Byte>)
    requires |bs| == |front|
    ensures Overwrite(front + rest, 0, bs) == bs + rest
  {
  }

  class Stream {
    var data: seq<Byte>
    var pos: nat

    constructor (initial: seq<Byte>)
      ensures data == initial && pos == 0
    {
      data := initial;
      pos := 0;
    }

    method Seek(p: nat)
      modifies this
      ensures pos == p && data == old(data)
    {
      pos := p;
    }

    method Write(bs: seq<Byte>)
      modifies this
      ensures data == Overwrite(old(data), old(pos), bs) && pos == old(pos) + |bs|
    {
      data := Overwrite(data, pos, bs);
      pos := pos + |bs|;
    }

    /** A binary reader's reads; None is its end-of-stream exception. */
    method ReadByte() returns (r: Option<Byte>)
      modifies this`pos
      ensures r.Some? <==> old(pos) + 1 <= |data|
      ensures r.Some? ==> r.value == data[old(pos)] && pos == old(pos) + 1
    {
      if pos + 1 > |data| {
        return None;
      }
      pos := pos + 1;
      return Some(data[pos - 1]);
    }

    method ReadUInt32() returns (r: Option<U32>)
      modifies this`pos
      ensures r.Some? <==> old(pos) + 4 <= |data|
      ensures r.Some? ==> r.value == U32At(data, old(pos)) && pos == old(pos) + 4
    {
      if pos + 4 > |data| {
        return None;
      }
      pos := pos + 4;
      return Some(U32At(data, pos - 4));
    }

    method ReadUInt64() returns (r: Option<U64>)
      modifies this`pos
      ensures r.Some? <==> old(pos) + 8 <= |data|
      ensures r.Some? ==> r.value == U64At(data, old(pos)) && pos == old(pos) + 8
    {
      if pos + 8 > |data| {
        return None;
      }
      pos := pos + 8;
      return Some(U64At(data, pos - 8));
    }
  }
}
