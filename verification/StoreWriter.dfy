/** The assembly store generator: lays out every assembly's data behind the metadata, then writes
    header, index, descriptors and names into the space left for them. Offsets and sizes are 32-bit. */
module StoreWriter {
  import opened Basics
  import opened StoreFormat

  datatype Arch = Arm | Arm64 | X86 | X86_64 | OtherArch

  /** `AssemblyStoreAssemblyInfo`, with the files replaced by their contents. */
  datatype AssemblyInfo = AssemblyInfo(
    arch: Arch,
    name: seq<Byte>,
    nameNoExt: seq<Byte>,
    ignored: bool,
    source: Option<seq<Byte>>,
    symbols: Option<seq<Byte>>,
    config: Option<seq<Byte>>)

  function Contents(file: Option<seq<Byte>>): seq<Byte> { if file.Some? then file.value else [] }

  function Length(file: Option<seq<Byte>>): nat { |Contents(file)| }

  // ----- Descriptors -----

  /** The three lengths of a stored assembly, added in 32 bits as the code adds them. */
  function ThreeLengths(info: AssemblyInfo): nat {
    Length(info.source) + Length(info.symbols) + Length(info.config)
  }

  predicate FileTooLarge(info: AssemblyInfo) {
    || (!info.ignored && Length(info.source) > UINT32_MAX)
    || Length(info.symbols) > UINT32_MAX
    || Length(info.config) > UINT32_MAX
  }

  /** `MakeDescriptor`, before the mapping index is set; None is its NotSupportedException. */
  function MakeDescriptor(info: AssemblyInfo, curPos: nat): Option<(Descriptor, nat)> {
    if FileTooLarge(info) then None
    else
      var dataOffset := if info.ignored then 0 else Wrap32(curPos);
      var dataSize := if info.ignored then 0 else Length(info.source);
      var debugSize := Length(info.symbols);
      var configSize := Length(info.config);
      var desc := Descriptor(
        0, dataOffset, dataSize,
        if info.symbols.Some? then Wrap32(dataOffset + dataSize) else 0, debugSize,
        if info.config.Some? then Wrap32(dataOffset + dataSize + debugSize) else 0, configSize);
      if info.ignored then Some((desc, curPos))
      else
        var newPos := curPos + Wrap32(dataSize + debugSize + configSize);
        if newPos > UINT32_MAX then None else Some((desc, newPos))
  }

  datatype Layout = Layout(descriptors: seq<Descriptor>, curPos: nat, mappingIndex: U32)

  /** One turn of the loop of `Generate`. */
  function AddDescriptor(before: Layout, info: AssemblyInfo): Option<Layout>
    requires before.mappingIndex <= INT32_MAX
  {
    var made := MakeDescriptor(info, before.curPos);
    if made == None then None
    else
      var mapping := if info.ignored then 0 else before.mappingIndex;
      Some(Layout(before.descriptors + [made.value.0.(mappingIndex := mapping)], made.value.1,
                  before.mappingIndex + if info.ignored then 0 else 1))
  }

  /** The loop over the first `n` assemblies: descriptors, position, next mapping index. (A .NET list
      holds at most Int32.MaxValue items, so the index does not wrap.) */
  function LayOut(infos: seq<AssemblyInfo>, start: nat, n: nat): (r: Option<Layout>)
    requires n <= |infos| <= INT32_MAX
    ensures r.Some? ==> |r.value.descriptors| == n && r.value.mappingIndex <= n
  {
    if n == 0 then Some(Layout([], start, 0))
    else
      var before := LayOut(infos, start, n - 1);
      if before == None then None else AddDescriptor(before.value, infos[n - 1])
  }

  /** What an assembly adds to the data. */
  function Extent(info: AssemblyInfo): nat { if info.ignored then 0 else ThreeLengths(info) }

  /** Where the loop's position stands after `n` assemblies. */
  function Position(infos: seq<AssemblyInfo>, start: nat, n: nat): nat
    requires n <= |infos|
  {
    if n == 0 then start else Position(infos, start, n - 1) + Wrap32(Extent(infos[n - 1]))
  }

  function CountStored(infos: seq<AssemblyInfo>, n: nat): (r: nat)
    requires n <= |infos|
    ensures r <= n
  {
    if n == 0 then 0 else CountStored(infos, n - 1) + if infos[n - 1].ignored then 0 else 1
  }

  function InfoData(info: AssemblyInfo): seq<Byte> {
    if info.ignored then [] else Contents(info.source) + (Contents(info.symbols) + Contents(info.config))
  }

  /** What `CopyData` appends to the stream for the first `n` assemblies. */
  function Data(infos: seq<AssemblyInfo>, n: nat): seq<Byte>
    requires n <= |infos|
  {
    if n == 0 then [] else Data(infos, n - 1) + InfoData(infos[n - 1])
  }

  // ----- Index -----

  datatype Hashes = Hashes(crc32: seq<Byte> -> U32, xxHash32: seq<Byte> -> U32, xxHash64: seq<Byte> -> U64,
                           content: seq<Byte> -> U64)

  /** `HashAssemblyName` */
  function HashName(hashes: Hashes, coreClr: bool, wide: bool, name: seq<Byte>): U64 {
    if coreClr then hashes.crc32(name) else if wide then hashes.xxHash64(name) else hashes.xxHash32(name)
  }

  predicate Is64Bit(arch: Arch) { arch == Arm64 || arch == X86_64 }

  predicate WideHashes(arch: Arch, coreClr: bool) { Is64Bit(arch) && !coreClr }

  function AbiFlag(arch: Arch): U32 {
    match arch
    case Arm64 => 0x00010000
    case Arm => 0x00020000
    case X86_64 => 0x00030000
    case _ => 0x00040000
  }

  /** `storeVersion | abiFlag`; the two have no bit in common. */
  function Version(arch: Arch): U32 {
    (if Is64Bit(arch) then 0x80000004 else 0x00000004) + AbiFlag(arch)
  }

  /** The constant of the native reader, as its header combines it from the word size and the ABI. */
  function NativeVersion(bits: nat, abi: bv32): bv32 {
    4 | (if bits == 64 then 0x8000_0000 else 0) | abi
  }

  /** The generator's version of each architecture is the native constant of that architecture. */
  lemma VersionIsNative()
    ensures Version(Arm64) == NativeVersion(64, 0x0001_0000) as nat
    ensures Version(Arm) == NativeVersion(32, 0x0002_0000) as nat
    ensures Version(X86_64) == NativeVersion(64, 0x0003_0000) as nat
    ensures Version(X86) == NativeVersion(32, 0x0004_0000) as nat
  {
    assert NativeVersion(64, 0x0001_0000) == 0x8001_0004 && NativeVersion(32, 0x0002_0000) == 0x0002_0004;
    assert NativeVersion(64, 0x0003_0000) == 0x8003_0004 && NativeVersion(32, 0x0004_0000) == 0x0004_0004;
  }

  /** Two entries for each of the first `n` assemblies, with and without the extension. */
  function RawIndex(hashes: Hashes, coreClr: bool, wide: bool, infos: seq<AssemblyInfo>, n: nat): (r: seq<IndexEntry>)
    requires n <= |infos| <= INT32_MAX
    ensures |r| == 2 * n
  {
    if n == 0 then []
    else
      var info := infos[n - 1];
      RawIndex(hashes, coreClr, wide, infos, n - 1) +
      [IndexEntry(HashName(hashes, coreClr, wide, info.name), n - 1, info.ignored),
       IndexEntry(HashName(hashes, coreClr, wide, info.nameNoExt), n - 1, info.ignored)]
  }

  predicate Sorted(entries: seq<IndexEntry>) {
    forall i, j :: 0 <= i < j < |entries| ==> entries[i].nameHash <= entries[j].nameHash
  }

  /** What `List.Sort` promises: the same entries, by hash, equal hashes in any order. */
  predicate IsSorting(sorted: seq<IndexEntry>, entries: seq<IndexEntry>) {
    Sorted(sorted) && multiset(sorted) == multiset(entries)
  }

  lemma {:induction false} InsertionPoint(s: seq<IndexEntry>, hash: U64) returns (i: nat)
    requires Sorted(s)
    ensures i <= |s|
    ensures forall k :: 0 <= k < i ==> s[k].nameHash <= hash
    ensures forall k :: i <= k < |s| ==> hash <= s[k].nameHash
  {
    if s == [] || s[|s| - 1].nameHash <= hash {
      i := |s|;
    } else {
      i := InsertionPoint(s[..|s| - 1], hash);
    }
  }

  lemma {:induction false} SortingExists(entries: seq<IndexEntry>)
    ensures exists sorted :: IsSorting(sorted, entries)
  {
    if entries == [] {
      assert IsSorting([], entries);
    } else {
      var e := entries[0];
      SortingExists(entries[1..]);
      var s: seq<IndexEntry> :| IsSorting(s, entries[1..]);
      var i := InsertionPoint(s, e.nameHash);
      var t := s[..i] + [e] + s[i..];
      assert Sorted(t);
      assert multiset(t) == multiset(entries) by {
        assert s == s[..i] + s[i..] && entries == [e] + entries[1..];
      }
      assert IsSorting(t, entries);
    }
  }

  // ----- The file -----

  function Names(infos: seq<AssemblyInfo>): (r: seq<seq<Byte>>)
    ensures |r| == |infos| && forall i :: 0 <= i < |r| ==> r[i] == infos[i].name
  {
    seq(|infos|, i requires 0 <= i < |infos| => infos[i].name)
  }

  function Metadata(sorted: seq<IndexEntry>, wide: bool, ds: seq<Descriptor>, names: seq<seq<Byte>>): seq<Byte> {
    IndexBytes(sorted, wide) + DescriptorTable(ds) + NameTable(names)
  }

  function StoreHeader(arch: Arch, wide: bool, infoCount: nat, contentId: U64): Header {
    Header(ASSEMBLY_STORE_MAGIC, Version(arch), Wrap32(infoCount), Wrap32(2 * infoCount),
           Wrap32(EntrySpan(wide, 2 * infoCount)), contentId)
  }

  /** The finished store: every section in its place. */
  function StoreBytes(hashes: Hashes, arch: Arch, wide: bool, sorted: seq<IndexEntry>, ds: seq<Descriptor>,
                      infos: seq<AssemblyInfo>): seq<Byte> {
    var rest := Metadata(sorted, wide, ds, Names(infos)) + Data(infos, |infos|);
    HeaderBytes(StoreHeader(arch, wide, |infos|, hashes.content(rest))) + rest
  }

  /** The sum `Generate` computes for the start of the data: three products and a constant in 32 bits,
      then the names in 64. */
  function DataStart(infos: seq<AssemblyInfo>, wide: bool): nat {
    Wrap32(Wrap32(EntrySpan(wide, 2 * |infos|)) + Wrap32(DescriptorSpan(|infos|)) + HEADER_SIZE) +
    |NameTable(Names(infos))|
  }

  function MetadataSize(infos: seq<AssemblyInfo>, wide: bool): nat {
    EntrySpan(wide, 2 * |infos|) + DescriptorSpan(|infos|) + HEADER_SIZE + |NameTable(Names(infos))|
  }

  /** `file` is a finished store for `infos`, with `sorted` as the outcome of its index sort. */
  ghost predicate IsStore(file: seq<Byte>, hashes: Hashes, coreClr: bool, arch: Arch, infos: seq<AssemblyInfo>,
                          sorted: seq<IndexEntry>)
    requires |infos| <= INT32_MAX
  {
    var wide := WideHashes(arch, coreClr);
    var laid := LayOut(infos, DataStart(infos, wide), |infos|);
    && arch != OtherArch && laid.Some? && DataStart(infos, wide) == MetadataSize(infos, wide)
    && IsSorting(sorted, RawIndex(hashes, coreClr, wide, infos, |infos|))
    && file == StoreBytes(hashes, arch, wide, sorted, laid.value.descriptors, infos)
  }

  /** The section sizes add up to the start of the data exactly when the fixed-size part fits 32 bits. */
  lemma DataStartExact(infos: seq<AssemblyInfo>, wide: bool)
    ensures DataStart(infos, wide) == MetadataSize(infos, wide) <==>
            EntrySpan(wide, 2 * |infos|) + DescriptorSpan(|infos|) + HEADER_SIZE < 0x1_0000_0000
  {
    var a, b := EntrySpan(wide, 2 * |infos|), DescriptorSpan(|infos|);
    WrapSum(a, b, HEADER_SIZE);
  }

  lemma WrapSum(a: nat, b: nat, c: nat)
    ensures Wrap32(Wrap32(a) + Wrap32(b) + c) == (a + b + c) % 0x1_0000_0000
    ensures Wrap32(Wrap32(a) + Wrap32(b) + c) == a + b + c <==> a + b + c < 0x1_0000_0000
  {
    assert a + b + c == Wrap32(a) + Wrap32(b) + c + 0x1_0000_0000 * (a / 0x1_0000_0000 + b / 0x1_0000_0000);
  }

  // ----- Data tiling -----

  /** Each assembly's three lengths add up in 32 bits. */
  predicate LengthsFit(infos: seq<AssemblyInfo>, n: nat)
    requires n <= |infos|
  {
    forall i :: 0 <= i < n && !infos[i].ignored ==> ThreeLengths(infos[i]) < 0x1_0000_0000
  }

  /** A longer layout starts with the shorter one. */
  lemma {:induction false} LayOutPrefix(infos: seq<AssemblyInfo>, start: nat, i: nat, n: nat)
    requires i <= n <= |infos| <= INT32_MAX && LayOut(infos, start, n).Some?
    ensures LayOut(infos, start, i).Some?
    ensures LayOut(infos, start, i).value.descriptors == LayOut(infos, start, n).value.descriptors[..i]
    decreases n
  {
    if i < n {
      LayOutPrefix(infos, start, i, n - 1);
    }
  }

  lemma DescriptorMoves(info: AssemblyInfo, pos: nat)
    requires MakeDescriptor(info, pos).Some?
    ensures MakeDescriptor(info, pos).value.1 == pos + Wrap32(Extent(info))
  {
  }

  /** The loop's accumulators, in closed form. */
  lemma {:induction false} LayOutAccumulates(infos: seq<AssemblyInfo>, start: nat, n: nat)
    requires n <= |infos| <= INT32_MAX && LayOut(infos, start, n).Some?
    ensures LayOut(infos, start, n).value.curPos == Position(infos, start, n)
    ensures LayOut(infos, start, n).value.mappingIndex == CountStored(infos, n)
  {
    if n > 0 {
      LayOutAccumulates(infos, start, n - 1);
      DescriptorMoves(infos[n - 1], LayOut(infos, start, n - 1).value.curPos);
    }
  }

  /** `d` is made for `info` at position `pos` with `mapping` as its index. */
  predicate MadeAt(d: Descriptor, info: AssemblyInfo, pos: nat, mapping: nat) {
    && MakeDescriptor(info, pos).Some? && mapping < 0x1_0000_0000
    && d == MakeDescriptor(info, pos).value.0.(mappingIndex := mapping)
  }

  /** Descriptor `i` is the one made at the position where the assemblies before it end; stored
      assemblies get the mapping indices 0, 1, 2, ... in order and ignored ones all get 0. */
  lemma DescriptorMade(infos: seq<AssemblyInfo>, start: nat, i: nat, n: nat)
    requires i < n <= |infos| <= INT32_MAX && LayOut(infos, start, n).Some?
    ensures MadeAt(LayOut(infos, start, n).value.descriptors[i], infos[i], Position(infos, start, i),
                   if infos[i].ignored then 0 else CountStored(infos, i))
  {
    LayOutPrefix(infos, start, i + 1, n);
    LayOutAccumulates(infos, start, i);
    assert LayOut(infos, start, n).value.descriptors[i] == LayOut(infos, start, i + 1).value.descriptors[i];
  }

  lemma WrapSplit(x: nat)
    ensures x == Wrap32(x) + 0x1_0000_0000 * (x / 0x1_0000_0000)
    ensures x / 0x1_0000_0000 == 0 <==> x < 0x1_0000_0000
  {
  }

  /** How many times 2^32 the 32-bit sums of the first `n` assemblies lost. */
  function Lost(infos: seq<AssemblyInfo>, n: nat): nat
    requires n <= |infos|
  {
    if n == 0 then 0 else Lost(infos, n - 1) + Extent(infos[n - 1]) / 0x1_0000_0000
  }

  lemma DataLengthStep(infos: seq<AssemblyInfo>, i: nat)
    requires i < |infos|
    ensures |Data(infos, i + 1)| == |Data(infos, i)| + Extent(infos[i])
  {
  }

  lemma {:induction false} LostNothing(infos: seq<AssemblyInfo>, n: nat)
    requires n <= |infos|
    ensures Lost(infos, n) == 0 <==> LengthsFit(infos, n)
  {
    if n > 0 {
      LostNothing(infos, n - 1);
      WrapSplit(Extent(infos[n - 1]));
      assert LengthsFit(infos, n) <==> LengthsFit(infos, n - 1) && Extent(infos[n - 1]) < 0x1_0000_0000;
    }
  }

  /** The loop's position is the true position in the data, less what the 32-bit sums lost; and nothing
      is lost exactly when every assembly's lengths fit. */
  lemma {:induction false} PositionTracksData(infos: seq<AssemblyInfo>, start: nat, n: nat)
    requires n <= |infos|
    ensures start + |Data(infos, n)| == Position(infos, start, n) + 0x1_0000_0000 * Lost(infos, n)
    ensures Lost(infos, n) == 0 <==> LengthsFit(infos, n)
    decreases n
  {
    hide InfoData, LengthsFit, Extent;
    LostNothing(infos, n);
    if n > 0 {
      DataLengthStep(infos, n - 1);
      PositionTracksData(infos, start, n - 1);
      WrapSplit(Extent(infos[n - 1]));
    }
  }

  /** What a descriptor made at the true position says. */
  lemma DescriptorSays(info: AssemblyInfo, pos: nat)
    requires MakeDescriptor(info, pos).Some? && !info.ignored && ThreeLengths(info) < 0x1_0000_0000
    ensures DescriptorPlaces(MakeDescriptor(info, pos).value.0, info, pos)
  {
  }

  /** An ignored assembly has no data: its descriptor says so, and only notes the sizes of files that it has. */
  lemma IgnoredHasNoData(infos: seq<AssemblyInfo>, start: nat, i: nat)
    requires |infos| <= INT32_MAX && LayOut(infos, start, |infos|).Some? && i < |infos| && infos[i].ignored
    ensures var d := LayOut(infos, start, |infos|).value.descriptors[i];
            && d.mappingIndex == d.dataOffset == d.dataSize == d.debugOffset == 0
            && d.debugSize == Length(infos[i].symbols) && d.configSize == Length(infos[i].config)
            && d.configOffset == if infos[i].config.Some? then d.debugSize else 0
    ensures |Data(infos, i + 1)| == |Data(infos, i)|
  {
    hide LayOut, Position;
    DescriptorMade(infos, start, i, |infos|);
  }

  /** Image, symbols and configuration one after the other from `pos`, absent parts at 0. */
  predicate DescriptorPlaces(d: Descriptor, info: AssemblyInfo, pos: nat) {
    && d.dataOffset == pos
    && d.dataSize == Length(info.source) && d.debugSize == Length(info.symbols) && d.configSize == Length(info.config)
    && d.debugOffset == (if info.symbols.Some? then d.dataOffset + d.dataSize else 0)
    && d.configOffset == (if info.config.Some? then d.dataOffset + d.dataSize + d.debugSize else 0)
    && d.dataOffset + ThreeLengths(info) <= UINT32_MAX
  }

  /** The three stored parts of assembly `i` lie exactly where its descriptor says, from where the data
      of the assemblies before it ends to where the data of the next begins: the parts tile the data
      area without a gap or an overlap, and every offset is exact in 32 bits. */
  lemma DataTiles(infos: seq<AssemblyInfo>, start: nat, i: nat)
    requires |infos| <= INT32_MAX && LayOut(infos, start, |infos|).Some? && LengthsFit(infos, |infos|)
    requires i < |infos| && !infos[i].ignored
    ensures DescriptorPlaces(LayOut(infos, start, |infos|).value.descriptors[i], infos[i], start + |Data(infos, i)|)
    ensures start + |Data(infos, i)| + ThreeLengths(infos[i]) == start + |Data(infos, i + 1)|
  {
    DescriptorMade(infos, start, i, |infos|);
    PositionTracksData(infos, start, i);
    DescriptorSays(infos[i], Position(infos, start, i));
    DataLengthStep(infos, i);
  }

  lemma {:induction false} DataPrefix(infos: seq<AssemblyInfo>, i: nat, n: nat)
    requires i <= n <= |infos|
    ensures HoldsAt(Data(infos, n), 0, Data(infos, i))
    decreases n
  {
    if i < n {
      DataPrefix(infos, i, n - 1);
    }
  }

  /** The image is the first part of what an assembly adds. */
  lemma ImageInData(infos: seq<AssemblyInfo>, i: nat)
    requires i < |infos| && !infos[i].ignored
    ensures HoldsAt(Data(infos, |infos|), |Data(infos, i)|, Contents(infos[i].source))
  {
    hide HoldsAt, Contents;
    DataPrefix(infos, i + 1, |infos|);
    HoldsSplit(Data(infos, |infos|), 0, Data(infos, i), InfoData(infos[i]));
    HoldsSplit(Data(infos, |infos|), |Data(infos, i)|, Contents(infos[i].source),
               Contents(infos[i].symbols) + Contents(infos[i].config));
  }

  lemma ImageInFile(infos: seq<AssemblyInfo>, start: nat, file: seq<Byte>, i: nat)
    requires i < |infos| && !infos[i].ignored && HoldsAt(file, start, Data(infos, |infos|))
    ensures HoldsAt(file, start + |Data(infos, i)|, Contents(infos[i].source))
  {
    hide Data, HoldsAt, Contents;
    ImageInData(infos, i);
    HoldsWithin(file, start, Data(infos, |infos|), |Data(infos, i)|, Contents(infos[i].source));
  }

  /** In any file that has the data area at `start`, an assembly's image is at its descriptor's offset. */
  lemma ImageAt(infos: seq<AssemblyInfo>, start: nat, file: seq<Byte>, i: nat)
    requires |infos| <= INT32_MAX && LayOut(infos, start, |infos|).Some? && LengthsFit(infos, |infos|)
    requires i < |infos| && !infos[i].ignored
    requires HoldsAt(file, start, Data(infos, |infos|))
    ensures HoldsAt(file, LayOut(infos, start, |infos|).value.descriptors[i].dataOffset, Contents(infos[i].source))
  {
    hide Data, HoldsAt, Contents, LayOut, Position;
    DataTiles(infos, start, i);
    ImageInFile(infos, start, file, i);
  }

  lemma DescriptorOffset(info: AssemblyInfo, pos: nat)
    requires MakeDescriptor(info, pos).Some? && !info.ignored
    ensures MakeDescriptor(info, pos).value.0.dataOffset == pos
  {
  }

  /** When the lengths of some assembly before a stored one do not fit, the layout really is wrong: the
      descriptor points short of the data. So tiling holds exactly when the lengths fit. */
  lemma TilingNeedsFit(infos: seq<AssemblyInfo>, start: nat, i: nat)
    requires |infos| <= INT32_MAX && LayOut(infos, start, |infos|).Some? && i < |infos| && !infos[i].ignored
    ensures LayOut(infos, start, |infos|).value.descriptors[i].dataOffset == start + |Data(infos, i)| <==>
            LengthsFit(infos, i)
  {
    DescriptorMade(infos, start, i, |infos|);
    PositionTracksData(infos, start, i);
    DescriptorOffset(infos[i], Position(infos, start, i));
  }

  /** An image and symbols of 2^31 bytes each, and then a small image: the sum of the first assembly's lengths
      wraps around to nothing, the 4 GiB guard lets the list pass, and the second descriptor points 2^32 bytes
      short of its data. */
  lemma {:induction false} LostCarryExample(start: nat, zeros: seq<Byte>)
    requires |zeros| == 0x8000_0000 && start + 4 <= UINT32_MAX
    ensures var infos := [AssemblyInfo(Arm64, [1], [1], false, Some(zeros), Some(zeros), None),
                          AssemblyInfo(Arm64, [2], [2], false, Some([0, 0, 0, 0]), None, None)];
            var laid := LayOut(infos, start, 2);
            && laid.Some? && laid.value.descriptors[1].dataOffset == start
            && start + |Data(infos, 1)| == start + 0x1_0000_0000
  {
    var big := AssemblyInfo(Arm64, [1], [1], false, Some(zeros), Some(zeros), None);
    var small := AssemblyInfo(Arm64, [2], [2], false, Some([0, 0, 0, 0]), None, None);
    var infos := [big, small];
    assert LayOut(infos, start, 0) == Some(Layout([], start, 0));
    assert MakeDescriptor(big, start).Some? && MakeDescriptor(big, start).value.1 == start;
    assert LayOut(infos, start, 1).Some? && LayOut(infos, start, 1).value.curPos == start;
    assert MakeDescriptor(small, start).Some?;
    DataLengthStep(infos, 0);
    assert |Data(infos, 0)| == 0 && Extent(big) == 0x1_0000_0000;
  }

  /** Ignored assemblies without files leave the position where it was. */
  lemma {:induction false} IgnoredLayOut(infos: seq<AssemblyInfo>, start: nat, n: nat)
    requires n <= |infos| <= INT32_MAX
    requires forall i :: 0 <= i < |infos| ==> infos[i].ignored && infos[i].symbols == None && infos[i].config == None
    ensures LayOut(infos, start, n).Some?
  {
    if n > 0 {
      IgnoredLayOut(infos, start, n - 1);
    }
  }

  /** A list that lays out, and whose fixed-size metadata passes 2^32: the final position check fires for it. */
  lemma {:induction false} CorruptMetadataExample(infos: seq<AssemblyInfo>)
    requires |infos| == 93_368_854
    requires forall i :: 0 <= i < |infos| ==> infos[i].ignored && infos[i].symbols == None && infos[i].config == None
    ensures LayOut(infos, DataStart(infos, false), |infos|).Some?
    ensures DataStart(infos, false) != MetadataSize(infos, false)
  {
    hide DataStart, MetadataSize, LayOut;
    IgnoredLayOut(infos, DataStart(infos, false), |infos|);
    DataStartExact(infos, false);
  }

  /** Nothing of assembly `i` is too large: no file has 2^32 bytes or more, and the position behind a stored one
      has 32 bits. */
  predicate Small(infos: seq<AssemblyInfo>, start: nat, i: nat)
    requires i < |infos|
  {
    && (!infos[i].ignored ==> Length(infos[i].source) < 0x1_0000_0000)
    && Length(infos[i].symbols) < 0x1_0000_0000 && Length(infos[i].config) < 0x1_0000_0000
    && (!infos[i].ignored ==> Position(infos, start, i + 1) < 0x1_0000_0000)
  }

  /** The layout is refused exactly when some assembly is too large. */
  lemma {:induction false} LaysOutExactly(infos: seq<AssemblyInfo>, start: nat, n: nat)
    requires n <= |infos| <= INT32_MAX
    ensures LayOut(infos, start, n).Some? <==> forall i :: 0 <= i < n ==> Small(infos, start, i)
  {
    hide LayOut, Small;
    if n == 0 {
      NothingLaidOut(infos, start);
    } else {
      LaysOutExactly(infos, start, n - 1);
      if LayOut(infos, start, n - 1).Some? {
        LayOutAccumulates(infos, start, n - 1);
      }
      OneMoreSmall(infos, start, n - 1);
    }
  }

  lemma {:induction false} NothingLaidOut(infos: seq<AssemblyInfo>, start: nat)
    requires |infos| <= INT32_MAX
    ensures LayOut(infos, start, 0).Some?
  {
  }

  lemma {:induction false} OneMoreSmall(infos: seq<AssemblyInfo>, start: nat, i: nat)
    requires i < |infos| <= INT32_MAX
    requires LayOut(infos, start, i).Some? ==> LayOut(infos, start, i).value.curPos == Position(infos, start, i)
    ensures LayOut(infos, start, i + 1).Some? <==> LayOut(infos, start, i).Some? && Small(infos, start, i)
  {
    hide Wrap32, Length;
  }

  /** With lengths that fit, that is when the data so far, behind `start`, passes 2^32 - 1 bytes: no store is larger
      than its 32-bit offsets can say, and none smaller is refused. */
  lemma {:induction false} RefusedExactly(infos: seq<AssemblyInfo>, start: nat)
    requires |infos| <= INT32_MAX && LengthsFit(infos, |infos|)
    requires forall i :: 0 <= i < |infos| ==>
               Length(infos[i].symbols) < 0x1_0000_0000 && Length(infos[i].config) < 0x1_0000_0000
    ensures LayOut(infos, start, |infos|).Some? <==>
            forall i :: 0 <= i < |infos| && !infos[i].ignored ==> start + |Data(infos, i + 1)| < 0x1_0000_0000
  {
    hide Data, LayOut, Position;
    LaysOutExactly(infos, start, |infos|);
    forall i | 0 <= i < |infos|
      ensures Small(infos, start, i) <==> infos[i].ignored || start + |Data(infos, i + 1)| < 0x1_0000_0000
    {
      assert LengthsFit(infos, i + 1);
      PositionTracksData(infos, start, i + 1);
    }
  }

  // ----- Mapping indices -----

  lemma {:induction false} CountMonotone(infos: seq<AssemblyInfo>, i: nat, j: nat)
    requires i <= j <= |infos|
    ensures CountStored(infos, i) <= CountStored(infos, j)
    decreases j
  {
    if i < j {
      CountMonotone(infos, i, j - 1);
    }
  }

  lemma MappingIs(infos: seq<AssemblyInfo>, start: nat, i: nat)
    requires |infos| <= INT32_MAX && LayOut(infos, start, |infos|).Some? && i < |infos| && !infos[i].ignored
    ensures LayOut(infos, start, |infos|).value.descriptors[i].mappingIndex ==
            CountStored(infos, i) < CountStored(infos, |infos|)
  {
    DescriptorMade(infos, start, i, |infos|);
    CountMonotone(infos, i + 1, |infos|);
  }

  /** Two stored assemblies never share a mapping index, and all are below the number stored. */
  lemma MappingDistinct(infos: seq<AssemblyInfo>, start: nat, i: nat, j: nat)
    requires |infos| <= INT32_MAX && LayOut(infos, start, |infos|).Some? && i < j < |infos|
    requires !infos[i].ignored && !infos[j].ignored
    ensures LayOut(infos, start, |infos|).value.descriptors[i].mappingIndex <
            LayOut(infos, start, |infos|).value.descriptors[j].mappingIndex < CountStored(infos, |infos|)
  {
    MappingIs(infos, start, i);
    MappingIs(infos, start, j);
    CountMonotone(infos, i + 1, j);
  }
}
