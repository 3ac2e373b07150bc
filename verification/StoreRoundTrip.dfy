/** Reading a store back: the generator's own readers, and where every section of a written store lies. */
module StoreRoundTrip {
  import opened Basics
  import opened StoreFormat
  import opened ByteStreams
  import opened StoreWriter

  datatype ReadResult<+T> = Read(value: T) | InvalidOperation | EndOfStream

  method ReadHeader(stream: Stream) returns (r: ReadResult<Header>)
    modifies stream
    ensures stream.data == old(stream.data)
    ensures r == if |stream.data| < HEADER_SIZE then EndOfStream else Read(HeaderAt(stream.data, 0))
  {
    stream.Seek(0);
    var magic := stream.ReadUInt32();
    if magic == None { return EndOfStream; }
    var version := stream.ReadUInt32();
    if version == None { return EndOfStream; }
    var entryCount := stream.ReadUInt32();
    if entryCount == None { return EndOfStream; }
    var indexEntryCount := stream.ReadUInt32();
    if indexEntryCount == None { return EndOfStream; }
    var indexSize := stream.ReadUInt32();
    if indexSize == None { return EndOfStream; }
    var contentId := stream.ReadUInt64();
    if contentId == None { return EndOfStream; }
    r := Read(Header(magic.value, version.value, entryCount.value, indexEntryCount.value, indexSize.value,
                     contentId.value));
  }

  /** `GetIndexEntrySize`; None is its exception. */
  function GetIndexEntrySize(header: Header): Option<nat> {
    if header.indexEntryCount == 0 then Some(0)
    else if header.indexSize % header.indexEntryCount != 0 then None
    else Some(header.indexSize / header.indexEntryCount)
  }

  function EntriesAt(bs: seq<Byte>, at: nat, wide: bool, count: nat): (r: seq<IndexEntry>)
    requires at + EntrySpan(wide, count) <= |bs|
    ensures |r| == count
  {
    if count == 0 then []
    else
      EntriesAt(bs, at, wide, count - 1) + [EntryAt(bs, at + EntrySpan(wide, count - 1), wide)]
  }

  function DescriptorsAt(bs: seq<Byte>, at: nat, count: nat): (r: seq<Descriptor>)
    requires at + DescriptorSpan(count) <= |bs|
    ensures |r| == count
  {
    if count == 0 then []
    else DescriptorsAt(bs, at, count - 1) + [DescriptorAt(bs, at + DescriptorSpan(count - 1))]
  }

  method ReadEntry(stream: Stream, wide: bool) returns (r: Option<IndexEntry>)
    modifies stream`pos
    ensures r.Some? <==> old(stream.pos) + EntrySize(wide) <= |stream.data|
    ensures r.Some? ==>
              r.value == EntryAt(stream.data, old(stream.pos), wide) && stream.pos == old(stream.pos) + EntrySize(wide)
  {
    var hash: Option<U64> := None;
    if wide {
      hash := stream.ReadUInt64();
    } else {
      var narrow := stream.ReadUInt32();
      if narrow.Some? {
        hash := Some(narrow.value);
      }
    }
    if hash == None { return None; }
    var descriptorIndex := stream.ReadUInt32();
    if descriptorIndex == None { return None; }
    var ignored := stream.ReadByte();
    if ignored == None { return None; }
    r := Some(IndexEntry(hash.value, descriptorIndex.value, ignored.value != 0));
  }

  /** Reads the index of any header, or says which exception the reader throws. */
  method ReadIndex(stream: Stream, header: Header) returns (r: ReadResult<seq<IndexEntry>>)
    modifies stream
    ensures stream.data == old(stream.data)
    ensures var size := GetIndexEntrySize(header);
            if header.indexEntryCount > INT32_MAX || size == None
               || (header.indexEntryCount > 0 && size.value != ENTRY_SIZE_64 && size.value != ENTRY_SIZE_32)
            then r == InvalidOperation
            else
              var wide := size.value == ENTRY_SIZE_64;
              if header.indexEntryCount > 0 && HEADER_SIZE + EntrySpan(wide, header.indexEntryCount) > |stream.data|
              then r == EndOfStream
              else if header.indexEntryCount == 0 then r == Read([])
              else r == Read(EntriesAt(stream.data, HEADER_SIZE, wide, header.indexEntryCount))
  {
    if header.indexEntryCount > INT32_MAX {
      return InvalidOperation;
    }
    stream.Seek(HEADER_SIZE);
    var size := GetIndexEntrySize(header);
    if size == None {
      return InvalidOperation;
    }
    var index: seq<IndexEntry> := [];
    var n, i := header.indexEntryCount, 0;
    while i < n
      invariant 0 <= i <= n && stream.data == old(stream.data)
      invariant i > 0 ==> size.value == ENTRY_SIZE_64 || size.value == ENTRY_SIZE_32
      invariant var wide := size.value == ENTRY_SIZE_64;
                && stream.pos == HEADER_SIZE + EntrySpan(wide, i)
                && (i > 0 ==> HEADER_SIZE + EntrySpan(wide, i) <= |stream.data|
                              && index == EntriesAt(stream.data, HEADER_SIZE, wide, i))
                && (i == 0 ==> index == [])
    {
      if size.value != ENTRY_SIZE_64 && size.value != ENTRY_SIZE_32 {
        return InvalidOperation;
      }
      var entry := ReadEntry(stream, size.value == ENTRY_SIZE_64);
      if entry == None {
        return EndOfStream;
      }
      index := index + [entry.value];
      i := i + 1;
    }
    r := Read(index);
  }

  method ReadDescriptors(stream: Stream, header: Header) returns (r: ReadResult<seq<Descriptor>>)
    modifies stream
    ensures stream.data == old(stream.data)
    ensures if header.entryCount > INT32_MAX then r == InvalidOperation
            else
              var at := Wrap32(HEADER_SIZE + header.indexSize);
              if header.entryCount > 0 && at + DescriptorSpan(header.entryCount) > |stream.data| then r == EndOfStream
              else if header.entryCount == 0 then r == Read([])
              else r == Read(DescriptorsAt(stream.data, at, header.entryCount))
  {
    if header.entryCount > INT32_MAX {
      return InvalidOperation;
    }
    var at := Wrap32(HEADER_SIZE + header.indexSize);
    stream.Seek(at);
    var descriptors: seq<Descriptor> := [];
    var n, i := header.entryCount, 0;
    while i < n
      invariant 0 <= i <= n && stream.data == old(stream.data)
      invariant stream.pos == at + DescriptorSpan(i)
      invariant i > 0 ==> at + DescriptorSpan(i) <= |stream.data| && descriptors == DescriptorsAt(stream.data, at, i)
      invariant i == 0 ==> descriptors == []
    {
      var d := ReadDescriptor(stream);
      if d == None {
        return EndOfStream;
      }
      descriptors := descriptors + [d.value];
      i := i + 1;
    }
    r := Read(descriptors);
  }

  method ReadDescriptor(stream: Stream) returns (r: Option<Descriptor>)
    modifies stream`pos
    ensures r.Some? <==> old(stream.pos) + DESCRIPTOR_SIZE <= |stream.data|
    ensures r.Some? ==>
              r.value == DescriptorAt(stream.data, old(stream.pos)) && stream.pos == old(stream.pos) + DESCRIPTOR_SIZE
  {
    var mappingIndex := stream.ReadUInt32();
    if mappingIndex == None { return None; }
    var dataOffset := stream.ReadUInt32();
    if dataOffset == None { return None; }
    var dataSize := stream.ReadUInt32();
    if dataSize == None { return None; }
    var debugOffset := stream.ReadUInt32();
    if debugOffset == None { return None; }
    var debugSize := stream.ReadUInt32();
    if debugSize == None { return None; }
    var configOffset := stream.ReadUInt32();
    if configOffset == None { return None; }
    var configSize := stream.ReadUInt32();
    if configSize == None { return None; }
    r := Some(Descriptor(mappingIndex.value, dataOffset.value, dataSize.value, debugOffset.value,
                         debugSize.value, configOffset.value, configSize.value));
  }

  // ----- The sections of a store -----

  /** The logical content of a store file. */
  datatype Parts = Parts(header: Header, entries: seq<IndexEntry>, wide: bool, descriptors: seq<Descriptor>,
                         names: seq<seq<Byte>>, data: seq<Byte>)

  function PartsBytes(p: Parts): seq<Byte> {
    HeaderBytes(p.header) + (Metadata(p.entries, p.wide, p.descriptors, p.names) + p.data)
  }

  /** The header counts the other sections, the hashes survive the entry size, and names have 32-bit lengths. */
  predicate Consistent(p: Parts) {
    && p.header.entryCount == |p.descriptors| == |p.names|
    && p.header.indexEntryCount == |p.entries|
    && p.header.indexSize == EntrySpan(p.wide, |p.entries|)
    && HEADER_SIZE + p.header.indexSize < 0x1_0000_0000
    && (forall i :: 0 <= i < |p.entries| ==> Kept(p.entries[i], p.wide) == p.entries[i])
    && (forall i :: 0 <= i < |p.names| ==> |p.names[i]| < 0x1_0000_0000)
  }

  function DescriptorsStart(p: Parts): nat { HEADER_SIZE + EntrySpan(p.wide, |p.entries|) }

  function NamesStart(p: Parts): nat { DescriptorsStart(p) + DescriptorSpan(|p.descriptors|) }

  function DataStartOf(p: Parts): nat { NamesStart(p) + |NameTable(p.names)| }

  lemma SectionsApart(bs: seq<Byte>, a: seq<Byte>, b: seq<Byte>, c: seq<Byte>, d: seq<Byte>, e: seq<Byte>)
    requires bs == a + (b + c + d + e)
    ensures HoldsAt(bs, 0, a) && HoldsAt(bs, |a|, b) && HoldsAt(bs, |a| + |b|, c)
    ensures HoldsAt(bs, |a| + |b| + |c|, d) && HoldsAt(bs, |a| + |b| + |c| + |d|, e)
  {
    hide HoldsAt;
    assert b + c + d + e == b + (c + (d + e));
    HoldsSplit(bs, 0, a, b + (c + (d + e)));
    HoldsSplit(bs, |a|, b, c + (d + e));
    HoldsSplit(bs, |a| + |b|, c, d + e);
    HoldsSplit(bs, |a| + |b| + |c|, d, e);
  }

  /** Each section of `p` lies in `bs` where its predecessors end. */
  predicate Lies(bs: seq<Byte>, p: Parts) {
    && |bs| >= HEADER_SIZE && HeaderAt(bs, 0) == p.header
    && HoldsAt(bs, HEADER_SIZE, IndexBytes(p.entries, p.wide))
    && HoldsAt(bs, DescriptorsStart(p), DescriptorTable(p.descriptors))
    && HoldsAt(bs, NamesStart(p), NameTable(p.names))
    && HoldsAt(bs, DataStartOf(p), p.data)
  }

  lemma Sections(p: Parts)
    ensures Lies(PartsBytes(p), p)
  {
    hide HeaderBytes, HeaderAt, IndexBytes, DescriptorTable, NameTable;
    TableSizes(p.entries, p.wide, p.descriptors);
    SectionsApart(PartsBytes(p), HeaderBytes(p.header), IndexBytes(p.entries, p.wide),
                  DescriptorTable(p.descriptors), NameTable(p.names), p.data);
    HeaderRoundTrip(PartsBytes(p), 0, p.header);
  }

  predicate EntryHere(bs: seq<Byte>, at: nat, wide: bool, e: IndexEntry) {
    at + EntrySize(wide) <= |bs| && EntryAt(bs, at, wide) == e
  }

  predicate DescriptorHere(bs: seq<Byte>, at: nat, d: Descriptor) {
    at + DESCRIPTOR_SIZE <= |bs| && DescriptorAt(bs, at) == d
  }

  lemma {:induction false} EntriesReadBack(bs: seq<Byte>, at: nat, entries: seq<IndexEntry>, wide: bool, count: nat)
    requires count <= |entries| && at <= |bs|
    requires forall i :: 0 <= i < count ==> EntryHere(bs, at + EntrySpan(wide, i), wide, entries[i])
    ensures at + EntrySpan(wide, count) <= |bs|
    ensures EntriesAt(bs, at, wide, count) == entries[..count]
  {
    if count > 0 {
      EntriesReadBack(bs, at, entries, wide, count - 1);
      assert EntryHere(bs, at + EntrySpan(wide, count - 1), wide, entries[count - 1]);
    }
  }

  lemma {:induction false} DescriptorsReadBack(bs: seq<Byte>, at: nat, ds: seq<Descriptor>, count: nat)
    requires count <= |ds| && at <= |bs|
    requires forall i :: 0 <= i < count ==> DescriptorHere(bs, at + DescriptorSpan(i), ds[i])
    ensures at + DescriptorSpan(count) <= |bs|
    ensures DescriptorsAt(bs, at, count) == ds[..count]
  {
    if count > 0 {
      DescriptorsReadBack(bs, at, ds, count - 1);
      assert DescriptorHere(bs, at + DescriptorSpan(count - 1), ds[count - 1]);
    }
  }

  /** An index lying in `bs` decodes to its entries. */
  lemma IndexDecodes(bs: seq<Byte>, at: nat, entries: seq<IndexEntry>, wide: bool)
    requires HoldsAt(bs, at, IndexBytes(entries, wide))
    requires forall i :: 0 <= i < |entries| ==> Kept(entries[i], wide) == entries[i]
    ensures at + EntrySpan(wide, |entries|) <= |bs|
    ensures EntriesAt(bs, at, wide, |entries|) == entries
  {
    forall i | 0 <= i < |entries| ensures EntryHere(bs, at + EntrySpan(wide, i), wide, entries[i]) {
      IndexEntryAt(bs, at, entries, wide, i);
    }
    EntriesReadBack(bs, at, entries, wide, |entries|);
    assert entries[..|entries|] == entries;
  }

  lemma DescriptorsLie(bs: seq<Byte>, at: nat, ds: seq<Descriptor>)
    requires HoldsAt(bs, at, DescriptorTable(ds))
    ensures forall i :: 0 <= i < |ds| ==> DescriptorHere(bs, at + DescriptorSpan(i), ds[i])
  {
    forall i | 0 <= i < |ds| ensures DescriptorHere(bs, at + DescriptorSpan(i), ds[i]) {
      DescriptorEntryAt(bs, at, ds, i);
    }
  }

  lemma DescriptorsDecode(bs: seq<Byte>, at: nat, ds: seq<Descriptor>)
    requires HoldsAt(bs, at, DescriptorTable(ds))
    ensures at + DescriptorSpan(|ds|) <= |bs|
    ensures DescriptorsAt(bs, at, |ds|) == ds
  {
    DescriptorsLie(bs, at, ds);
    DescriptorsReadBack(bs, at, ds, |ds|);
    assert ds[..|ds|] == ds;
  }

  /** The header and tables of `bs` decode to those of `p`. */
  predicate Decodes(bs: seq<Byte>, p: Parts) {
    && |bs| >= HEADER_SIZE && HeaderAt(bs, 0) == p.header
    && HEADER_SIZE + EntrySpan(p.wide, |p.entries|) <= |bs|
    && EntriesAt(bs, HEADER_SIZE, p.wide, |p.entries|) == p.entries
    && DescriptorsStart(p) + DescriptorSpan(|p.descriptors|) <= |bs|
    && DescriptorsAt(bs, DescriptorsStart(p), |p.descriptors|) == p.descriptors
  }

  /** A consistent store's header and tables decode to what was encoded. */
  lemma StoreDecodes(bs: seq<Byte>, p: Parts)
    requires Lies(bs, p) && Consistent(p)
    ensures Decodes(bs, p)
  {
    IndexDecodes(bs, HEADER_SIZE, p.entries, p.wide);
    DescriptorsDecode(bs, DescriptorsStart(p), p.descriptors);
  }

  lemma MultipleBound(m: nat, k: int)
    ensures k >= 1 ==> m * k >= m
    ensures k <= -1 ==> m * k <= -(m as int)
  {
  }

  lemma DivideBack(m: nat, e: nat)
    requires m > 0
    ensures (m * e) % m == 0 && (m * e) / m == e
  {
    var q, r := (m * e) / m, (m * e) % m;
    assert m * e == m * q + r && 0 <= r < m;
    assert m * (e - q) == r;
    MultipleBound(m, e - q);
  }

  /** The reader divides the index size by the entry count and finds the size the writer used. */
  lemma EntrySizeFound(p: Parts)
    requires Consistent(p)
    ensures GetIndexEntrySize(p.header) == Some(if p.entries == [] then 0 else EntrySize(p.wide))
  {
    if p.entries != [] {
      DivideBack(|p.entries|, 9);
      DivideBack(|p.entries|, 13);
    }
  }

  /** What the table readers need to know of the header. */
  lemma HeaderFacts(p: Parts)
    requires Consistent(p)
    ensures p.header.indexEntryCount == |p.entries| && p.header.entryCount == |p.descriptors|
    ensures Wrap32(HEADER_SIZE + p.header.indexSize) == DescriptorsStart(p)
  {
  }

  /** Any consistent store reads back, with 9-byte and with 13-byte entries, through the generator's own
      readers to the header, the index and the descriptors it holds. */
  method ReadBack(stream: Stream, ghost p: Parts)
    returns (header: ReadResult<Header>, index: ReadResult<seq<IndexEntry>>, descriptors: ReadResult<seq<Descriptor>>)
    requires Decodes(stream.data, p) && Consistent(p)
    requires |p.entries| <= INT32_MAX && |p.descriptors| <= INT32_MAX
    modifies stream
    ensures header == Read(p.header) && index == Read(p.entries) && descriptors == Read(p.descriptors)
  {
    HeaderFacts(p);
    EntrySizeFound(p);
    header := ReadHeader(stream);
    index := ReadIndexBack(stream, header.value, p);
    descriptors := ReadDescriptorsBack(stream, header.value, p);
  }

  method ReadIndexBack(stream: Stream, header: Header, ghost p: Parts) returns (index: ReadResult<seq<IndexEntry>>)
    requires Decodes(stream.data, p) && header.indexEntryCount == |p.entries| <= INT32_MAX
    requires GetIndexEntrySize(header) == Some(if p.entries == [] then 0 else EntrySize(p.wide))
    modifies stream
    ensures stream.data == old(stream.data) && index == Read(p.entries)
  {
    index := ReadIndex(stream, header);
  }

  method ReadDescriptorsBack(stream: Stream, header: Header, ghost p: Parts)
    returns (descriptors: ReadResult<seq<Descriptor>>)
    requires Decodes(stream.data, p) && header.entryCount == |p.descriptors| <= INT32_MAX
    requires Wrap32(HEADER_SIZE + header.indexSize) == DescriptorsStart(p)
    modifies stream
    ensures stream.data == old(stream.data) && descriptors == Read(p.descriptors)
  {
    descriptors := ReadDescriptors(stream, header);
  }
}
