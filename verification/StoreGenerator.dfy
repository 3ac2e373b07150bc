/** The generator's methods, writing to and reading from a stream. */
module StoreGenerator {
  import opened Basics
  import opened StoreFormat
  import opened ByteStreams
  import opened StoreWriter

  datatype GenerateResult =
    | Generated(bytes: seq<Byte>)
    | UnsupportedArch
    | TooLarge          // NotSupportedException from MakeDescriptor
    | CorruptStream     // the stream is not where the descriptor says
    | CorruptMetadata   // the metadata did not end where the data starts

  lemma {:induction false} WordsAppend(words: seq<U32>, w: U32)
    ensures WordsBytes(words + [w]) == WordsBytes(words) + U32Bytes(w)
  {
    if words == [] {
      assert [w][1..] == [];
    } else {
      assert (words + [w])[1..] == words[1..] + [w];
      WordsAppend(words[1..], w);
    }
  }

  /** `BinaryWriter.Write(uint)`, value after value. */
  method WriteWords(stream: Stream, words: seq<U32>)
    modifies stream
    ensures stream.data == Overwrite(old(stream.data), old(stream.pos), WordsBytes(words))
    ensures stream.pos == old(stream.pos) + 4 * |words|
  {
    ghost var d0, p0 := stream.data, stream.pos;
    for i := 0 to |words|
      invariant Wrote(d0, p0, stream.data, stream.pos, WordsBytes(words[..i]))
    {
      WroteMore(d0, p0, stream.data, stream.pos, WordsBytes(words[..i]), U32Bytes(words[i]));
      WordsAppend(words[..i], words[i]);
      assert words[..i + 1] == words[..i] + [words[i]];
      stream.Write(U32Bytes(words[i]));
    }
    assert words[..|words|] == words;
  }

  method WriteHeader(stream: Stream, header: Header)
    modifies stream
    ensures stream.data == Overwrite(old(stream.data), old(stream.pos), HeaderBytes(header))
    ensures stream.pos == old(stream.pos) + HEADER_SIZE
  {
    OverwriteTwice(stream.data, stream.pos, WordsBytes(HeaderWords(header)), U64Bytes(header.contentId));
    WriteWords(stream, HeaderWords(header));
    stream.Write(U64Bytes(header.contentId));
  }

  method WriteEntry(stream: Stream, e: IndexEntry, wide: bool)
    modifies stream
    ensures stream.data == Overwrite(old(stream.data), old(stream.pos), EntryBytes(e, wide))
    ensures stream.pos == old(stream.pos) + EntrySize(wide)
  {
    var hash, desc, flag := HashBytes(e.nameHash, wide), U32Bytes(e.descriptorIndex), [if e.ignore then 1 else 0];
    OverwriteTwice(stream.data, stream.pos, hash, desc);
    OverwriteTwice(stream.data, stream.pos, hash + desc, flag);
    assert EntryBytes(e, wide) == hash + desc + flag;
    stream.Write(hash);
    stream.Write(desc);
    stream.Write(flag);
  }

  /** Sorts the index by hash, in whatever order `List.Sort` leaves equal hashes, and writes it. */
  method WriteIndex(stream: Stream, index: seq<IndexEntry>, wide: bool) returns (sorted: seq<IndexEntry>)
    modifies stream
    ensures IsSorting(sorted, index)
    ensures stream.data == Overwrite(old(stream.data), old(stream.pos), IndexBytes(sorted, wide))
    ensures stream.pos == old(stream.pos) + EntrySpan(wide, |index|)
  {
    SortingExists(index);
    sorted :| IsSorting(sorted, index);
    assert |sorted| == |multiset(sorted)| == |index|;
    ghost var records := EntryRecords(sorted, wide);
    ghost var d0, p0 := stream.data, stream.pos;
    for i := 0 to |sorted|
      invariant Wrote(d0, p0, stream.data, stream.pos, Flatten(records[..i]))
    {
      WroteRecord(d0, p0, stream.data, stream.pos, records, i);
      WriteEntry(stream, sorted[i], wide);
    }
    assert records[..|sorted|] == records;
    FlattenUniform(records, EntrySize(wide));
  }

  /** One more record of a table. */
  lemma WroteRecord(d0: seq<Byte>, p0: nat, data: seq<Byte>, pos: nat, records: seq<seq<Byte>>, i: nat)
    requires i < |records| && Wrote(d0, p0, data, pos, Flatten(records[..i]))
    ensures Wrote(d0, p0, Overwrite(data, pos, records[i]), pos + |records[i]|, Flatten(records[..i + 1]))
  {
    WroteMore(d0, p0, data, pos, Flatten(records[..i]), records[i]);
    FlattenStep(records, i);
  }

  method WriteDescriptors(stream: Stream, descriptors: seq<Descriptor>)
    modifies stream
    ensures stream.data == Overwrite(old(stream.data), old(stream.pos), DescriptorTable(descriptors))
    ensures stream.pos == old(stream.pos) + DescriptorSpan(|descriptors|)
  {
    ghost var records := DescriptorRecords(descriptors);
    ghost var d0, p0 := stream.data, stream.pos;
    for i := 0 to |descriptors|
      invariant Wrote(d0, p0, stream.data, stream.pos, Flatten(records[..i]))
    {
      WroteRecord(d0, p0, stream.data, stream.pos, records, i);
      WriteWords(stream, DescriptorWords(descriptors[i]));
    }
    assert records[..|descriptors|] == records;
    FlattenUniform(records, DESCRIPTOR_SIZE);
  }

  method WriteNames(stream: Stream, infos: seq<AssemblyInfo>)
    modifies stream
    ensures stream.data == Overwrite(old(stream.data), old(stream.pos), NameTable(Names(infos)))
    ensures stream.pos == old(stream.pos) + |NameTable(Names(infos))|
  {
    ghost var records := NameRecords(Names(infos));
    ghost var d0, p0 := stream.data, stream.pos;
    for i := 0 to |infos|
      invariant Wrote(d0, p0, stream.data, stream.pos, Flatten(records[..i]))
    {
      WroteRecord(d0, p0, stream.data, stream.pos, records, i);
      WriteName(stream, infos[i].name);
    }
    assert records[..|infos|] == records;
  }

  method WriteName(stream: Stream, name: seq<Byte>)
    modifies stream
    ensures stream.data == Overwrite(old(stream.data), old(stream.pos), NameBytes(name))
    ensures stream.pos == old(stream.pos) + |NameBytes(name)|
  {
    OverwriteTwice(stream.data, stream.pos, U32Bytes(Wrap32(|name|)), name);
    stream.Write(U32Bytes(Wrap32(|name|)));
    stream.Write(name);
  }

  method CopyData(stream: Stream, file: Option<seq<Byte>>)
    modifies stream
    ensures stream.data == Overwrite(old(stream.data), old(stream.pos), Contents(file))
    ensures stream.pos == old(stream.pos) + Length(file)
  {
    if file == None {
      return;
    }
    stream.Write(file.value);
  }

  // ----- Generate -----

  /** `HashAssemblyName` for the two names of one assembly: its two index entries. */
  function EntryPair(hashes: Hashes, coreClr: bool, wide: bool, info: AssemblyInfo, k: U32): seq<IndexEntry> {
    [IndexEntry(HashName(hashes, coreClr, wide, info.name), k, info.ignored),
     IndexEntry(HashName(hashes, coreClr, wide, info.nameNoExt), k, info.ignored)]
  }

  lemma RawIndexStep(hashes: Hashes, coreClr: bool, wide: bool, infos: seq<AssemblyInfo>, n: nat)
    requires n < |infos| <= INT32_MAX
    ensures RawIndex(hashes, coreClr, wide, infos, n + 1) ==
            RawIndex(hashes, coreClr, wide, infos, n) + EntryPair(hashes, coreClr, wide, infos[n], n)
  {
  }

  /** The low 32 bits of the stream position are the descriptor's offset even when lengths overflow. */
  lemma StreamPositionAgrees(infos: seq<AssemblyInfo>, start: nat, n: nat)
    requires n <= |infos|
    ensures Wrap32(start + |Data(infos, n)|) == Wrap32(Position(infos, start, n))
  {
    PositionTracksData(infos, start, n);
    SameResidue(Position(infos, start, n), Lost(infos, n));
  }

  lemma SameResidue(a: nat, k: nat)
    ensures Wrap32(a + 0x1_0000_0000 * k) == Wrap32(a)
  {
  }

  lemma MadeOffset(info: AssemblyInfo, pos: nat)
    requires MakeDescriptor(info, pos).Some? && !info.ignored
    ensures MakeDescriptor(info, pos).value.0.dataOffset == Wrap32(pos)
  {
  }

  /** Data written first at `|meta|`, metadata then written over the gap in front of it. */
  lemma MetadataThenData(meta: seq<Byte>, data: seq<Byte>)
    ensures Overwrite(Overwrite([], |meta|, data), 0, meta) == meta + data
  {
    if data == [] {
      assert Overwrite([], 0, meta) == meta;
    } else {
      assert Overwrite([], |meta|, data) == Zeros(|meta|) + data by {
        assert [] + Zeros(|meta|) == Zeros(|meta|);
      }
      OverwriteFront(Zeros(|meta|), data, meta);
    }
  }

  /** Every CopyData of one assembly. */
  method CopyAssembly(stream: Stream, info: AssemblyInfo)
    requires !info.ignored
    modifies stream
    ensures stream.data == Overwrite(old(stream.data), old(stream.pos), InfoData(info))
    ensures stream.pos == old(stream.pos) + |InfoData(info)|
  {
    var src, sym, cfg := Contents(info.source), Contents(info.symbols), Contents(info.config);
    OverwriteTwice(stream.data, stream.pos, src, sym);
    OverwriteTwice(stream.data, stream.pos, src + sym, cfg);
    assert InfoData(info) == src + sym + cfg;
    CopyData(stream, info.source);
    CopyData(stream, info.symbols);
    CopyData(stream, info.config);
  }

  datatype LoopResult = Laid(layout: Layout, index: seq<IndexEntry>) | Failed(error: GenerateResult)

  /** The loop has laid out the first `i` assemblies. */
  predicate LaidOut(infos: seq<AssemblyInfo>, start: nat, i: nat, layout: Layout) {
    i <= |infos| <= INT32_MAX && LayOut(infos, start, i) == Some(layout)
  }

  /** One turn of the loop: the next layout, and the stream position its check compares. */
  lemma TurnFacts(infos: seq<AssemblyInfo>, start: nat, i: nat, layout: Layout)
    requires i < |infos| && LaidOut(infos, start, i, layout)
    ensures layout.mappingIndex <= INT32_MAX
    ensures AddDescriptor(layout, infos[i]) == None ==> LayOut(infos, start, |infos|) == None
    ensures AddDescriptor(layout, infos[i]).Some? ==>
              var next := AddDescriptor(layout, infos[i]).value;
              && LaidOut(infos, start, i + 1, next)
              && |next.descriptors| == i + 1
              && (!infos[i].ignored ==> next.descriptors[i].dataOffset == Wrap32(start + |Data(infos, i)|))
  {
    if AddDescriptor(layout, infos[i]) == None {
      LayOutFails(infos, start, i);
    } else {
      LayOutAccumulates(infos, start, i);
      if !infos[i].ignored {
        StreamPositionAgrees(infos, start, i);
        MadeOffset(infos[i], layout.curPos);
      }
    }
  }

  /** The stream holds the data of the first `i` assemblies behind the gap left for the metadata. */
  predicate DataWritten(data: seq<Byte>, pos: nat, infos: seq<AssemblyInfo>, start: nat, i: nat) {
    i <= |infos| && pos == start + |Data(infos, i)| && data == Overwrite([], start, Data(infos, i))
  }

  lemma DataWrittenStep(data: seq<Byte>, pos: nat, infos: seq<AssemblyInfo>, start: nat, i: nat)
    requires i < |infos| && DataWritten(data, pos, infos, start, i)
    ensures if infos[i].ignored then DataWritten(data, pos, infos, start, i + 1)
            else DataWritten(Overwrite(data, pos, InfoData(infos[i])), pos + |InfoData(infos[i])|, infos, start, i + 1)
  {
    OverwriteTwice([], start, Data(infos, i), InfoData(infos[i]));
  }

  predicate Indexed(hashes: Hashes, coreClr: bool, wide: bool, infos: seq<AssemblyInfo>, i: nat, index: seq<IndexEntry>)
  {
    i <= |infos| <= INT32_MAX && index == RawIndex(hashes, coreClr, wide, infos, i)
  }

  lemma IndexedStep(hashes: Hashes, coreClr: bool, wide: bool, infos: seq<AssemblyInfo>, i: nat, index: seq<IndexEntry>)
    requires i < |infos| && Indexed(hashes, coreClr, wide, infos, i, index)
    ensures Indexed(hashes, coreClr, wide, infos, i + 1, index + EntryPair(hashes, coreClr, wide, infos[i], i))
  {
    RawIndexStep(hashes, coreClr, wide, infos, i);
  }

  /** The first loop of `Generate`: descriptors and index entries, and the data into the stream. It
      fails only when the layout does; the stream is always where the descriptor says. */
  method WriteData(hashes: Hashes, coreClr: bool, wide: bool, infos: seq<AssemblyInfo>, start: nat, stream: Stream)
    returns (r: LoopResult)
    requires |infos| <= INT32_MAX && stream.data == [] && stream.pos == start
    modifies stream
    ensures LayOut(infos, start, |infos|) == None ==> r == Failed(TooLarge)
    ensures LayOut(infos, start, |infos|).Some? ==>
              && r == Laid(LayOut(infos, start, |infos|).value, RawIndex(hashes, coreClr, wide, infos, |infos|))
              && stream.data == Overwrite([], start, Data(infos, |infos|))
  {
    hide AddDescriptor, MakeDescriptor, Wrap32, EntryPair, InfoData, HashName;
    var layout := Layout([], start, 0);
    var index: seq<IndexEntry> := [];
    for i := 0 to |infos|
      invariant LaidOut(infos, start, i, layout)
      invariant Indexed(hashes, coreClr, wide, infos, i, index)
      invariant DataWritten(stream.data, stream.pos, infos, start, i)
    {
      var info := infos[i];
      TurnFacts(infos, start, i, layout);
      DataWrittenStep(stream.data, stream.pos, infos, start, i);
      IndexedStep(hashes, coreClr, wide, infos, i, index);
      var next := AddDescriptor(layout, info);
      if next == None {
        return Failed(TooLarge);
      }
      if !info.ignored && Wrap32(stream.pos) != next.value.descriptors[i].dataOffset {
        return Failed(CorruptStream);
      }
      index := index + EntryPair(hashes, coreClr, wide, info, i);
      layout := next.value;
      if !info.ignored {
        CopyAssembly(stream, info);
      }
    }
    r := Laid(layout, index);
  }

  lemma {:induction false} LayOutFails(infos: seq<AssemblyInfo>, start: nat, i: nat)
    requires i < |infos| <= INT32_MAX && LayOut(infos, start, i + 1) == None
    ensures LayOut(infos, start, |infos|) == None
  {
    if LayOut(infos, start, |infos|).Some? {
      LayOutPrefix(infos, start, i + 1, |infos|);
    }
  }

  /** `Generate` for one architecture. When the layout fits, the outcome depends only on whether the
      fixed-size metadata fits 32 bits: then the file is the store, and otherwise the final position
      check fires. The stream check never fires. */
  method Generate(hashes: Hashes, coreClr: bool, arch: Arch, infos: seq<AssemblyInfo>) returns (r: GenerateResult)
    requires |infos| <= INT32_MAX
    ensures arch == OtherArch ==> r == UnsupportedArch
    ensures arch != OtherArch ==>
              var wide := WideHashes(arch, coreClr);
              var start := DataStart(infos, wide);
              if LayOut(infos, start, |infos|) == None then r == TooLarge
              else if start != MetadataSize(infos, wide) then r == CorruptMetadata
              else r.Generated? && exists sorted :: IsStore(r.bytes, hashes, coreClr, arch, infos, sorted)
  {
    if arch == OtherArch {
      return UnsupportedArch;
    }
    var wide := WideHashes(arch, coreClr);
    var start := DataStart(infos, wide);
    var stream := new Stream([]);
    stream.Seek(start);
    var laid := WriteData(hashes, coreClr, wide, infos, start, stream);
    if laid.Failed? {
      return laid.error;
    }
    var header := StoreHeader(arch, wide, |infos|, 0);
    var sorted := WriteMetadata(stream, header, laid.index, wide, laid.layout.descriptors, infos);
    if stream.pos != start {
      return CorruptMetadata;
    }
    ghost var rest := Metadata(sorted, wide, laid.layout.descriptors, Names(infos)) + Data(infos, |infos|);
    MetadataThenData(HeaderBytes(header) + Metadata(sorted, wide, laid.layout.descriptors, Names(infos)),
                     Data(infos, |infos|));
    FrontAndRest(stream.data, HeaderBytes(header), Metadata(sorted, wide, laid.layout.descriptors, Names(infos)),
                 Data(infos, |infos|));
    var contentId := hashes.content(stream.data[HEADER_SIZE..]);
    header := StoreHeader(arch, wide, |infos|, contentId);
    stream.Seek(0);
    OverwriteFront(stream.data[..HEADER_SIZE], rest, HeaderBytes(header));
    WriteHeader(stream, header);
    r := Generated(stream.data);
    assert IsStore(r.bytes, hashes, coreClr, arch, infos, sorted);
  }

  lemma FrontAndRest(bs: seq<Byte>, front: seq<Byte>, b: seq<Byte>, c: seq<Byte>)
    requires bs == front + b + c
    ensures bs[..|front|] == front && bs[|front|..] == b + c
  {
    assert bs == front + (b + c);
  }

  /** Header, index, descriptors and names from the beginning of the file. */
  method WriteMetadata(stream: Stream, header: Header, index: seq<IndexEntry>, wide: bool,
                       descriptors: seq<Descriptor>, infos: seq<AssemblyInfo>)
    returns (sorted: seq<IndexEntry>)
    requires |index| == 2 * |infos| && |descriptors| == |infos|
    modifies stream
    ensures IsSorting(sorted, index)
    ensures stream.data ==
            Overwrite(old(stream.data), 0, HeaderBytes(header) + Metadata(sorted, wide, descriptors, Names(infos)))
    ensures stream.pos == |HeaderBytes(header) + Metadata(sorted, wide, descriptors, Names(infos))| ==
            MetadataSize(infos, wide)
  {
    hide HeaderBytes, IndexBytes, DescriptorTable, NameTable, Overwrite;
    ghost var d0 := stream.data;
    stream.Seek(0);
    WriteHeader(stream, header);
    sorted := WriteIndex(stream, index, wide);
    assert |sorted| == |multiset(sorted)| == |index|;
    WriteDescriptors(stream, descriptors);
    WriteNames(stream, infos);
    TableSizes(sorted, wide, descriptors);
    SectionsJoin(d0, HeaderBytes(header), IndexBytes(sorted, wide), DescriptorTable(descriptors),
                 NameTable(Names(infos)));
  }

  lemma SectionsJoin(d: seq<Byte>, a: seq<Byte>, b: seq<Byte>, c: seq<Byte>, e: seq<Byte>)
    ensures Overwrite(Overwrite(Overwrite(Overwrite(d, 0, a), |a|, b), |a| + |b|, c), |a| + |b| + |c|, e) ==
            Overwrite(d, 0, a + (b + c + e))
  {
    hide Overwrite;
    OverwriteTwice(d, 0, a, b);
    OverwriteTwice(d, 0, a + b, c);
    OverwriteTwice(d, 0, a + b + c, e);
    assert a + (b + c + e) == a + b + c + e;
  }
}
