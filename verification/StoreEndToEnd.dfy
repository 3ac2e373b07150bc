/** Write, map, open: a store written for CoreCLR, configured from its own bytes, answers every name as
    the plain list of assemblies does, for every hash function and after any opens before. */
module StoreEndToEnd {
  import opened Basics
  import opened StoreFormat
  import opened StoreWriter
  import opened StoreRoundTrip
  import opened StoreReader
  import opened ByteStreams

  // ----- What the generator produced -----

  function LaidFor(infos: seq<AssemblyInfo>, wide: bool): Option<Layout>
    requires |infos| <= INT32_MAX
  {
    LayOut(infos, DataStart(infos, wide), |infos|)
  }

  /** The layout of a CoreCLR store: 32-bit CRC32 hashes, 9-byte entries. */
  function Laid(infos: seq<AssemblyInfo>): Option<Layout>
    requires |infos| <= INT32_MAX
  {
    LaidFor(infos, false)
  }

  /** `file` is what `Generate` returns for CoreCLR. */
  ghost predicate Written(file: seq<Byte>, hashes: Hashes, arch: Arch, infos: seq<AssemblyInfo>,
                          sorted: seq<IndexEntry>)
  {
    |infos| <= INT32_MAX && IsStore(file, hashes, true, arch, infos, sorted)
  }

  /** Every name has a 32-bit length. */
  predicate NamesFit(infos: seq<AssemblyInfo>) {
    forall i :: 0 <= i < |infos| ==> |infos[i].name| < 0x1_0000_0000
  }

  /** The extensionless name is the name less the extension that the reader would strip. */
  predicate WellNamed(info: AssemblyInfo) {
    var stem := WithoutExtension(info.name);
    info.nameNoExt == if stem.Some? then stem.value else info.name
  }

  predicate NamesOk(infos: seq<AssemblyInfo>) {
    NamesFit(infos) && forall i :: 0 <= i < |infos| ==> WellNamed(infos[i])
  }

  // ----- The index -----

  /** `e` is one of the two entries of assembly `e.descriptorIndex`. */
  predicate EntryFor(hashes: Hashes, coreClr: bool, wide: bool, infos: seq<AssemblyInfo>, e: IndexEntry) {
    && e.descriptorIndex < |infos|
    && var info := infos[e.descriptorIndex];
       && e.ignore == info.ignored
       && (e.nameHash == HashName(hashes, coreClr, wide, info.name)
           || e.nameHash == HashName(hashes, coreClr, wide, info.nameNoExt))
  }

  function Entry(hashes: Hashes, coreClr: bool, wide: bool, name: Name, i: U32, info: AssemblyInfo): IndexEntry {
    IndexEntry(HashName(hashes, coreClr, wide, name), i, info.ignored)
  }

  lemma {:induction false} RawIndexSound(hashes: Hashes, coreClr: bool, wide: bool, infos: seq<AssemblyInfo>, n: nat,
                                         k: nat)
    requires n <= |infos| <= INT32_MAX && k < |RawIndex(hashes, coreClr, wide, infos, n)|
    ensures EntryFor(hashes, coreClr, wide, infos, RawIndex(hashes, coreClr, wide, infos, n)[k])
    decreases n
  {
    hide HashName;
    if k < |RawIndex(hashes, coreClr, wide, infos, n - 1)| {
      RawIndexSound(hashes, coreClr, wide, infos, n - 1, k);
    }
  }

  lemma {:induction false} RawIndexComplete(hashes: Hashes, coreClr: bool, wide: bool, infos: seq<AssemblyInfo>,
                                            n: nat, i: nat)
    requires i < n <= |infos| <= INT32_MAX
    ensures Entry(hashes, coreClr, wide, infos[i].name, i, infos[i]) in RawIndex(hashes, coreClr, wide, infos, n)
    ensures Entry(hashes, coreClr, wide, infos[i].nameNoExt, i, infos[i]) in RawIndex(hashes, coreClr, wide, infos, n)
    decreases n
  {
    hide HashName;
    var before, last := RawIndex(hashes, coreClr, wide, infos, n - 1), infos[n - 1];
    var pair := [Entry(hashes, coreClr, wide, last.name, n - 1, last),
                 Entry(hashes, coreClr, wide, last.nameNoExt, n - 1, last)];
    assert RawIndex(hashes, coreClr, wide, infos, n) == before + pair;
    if i < n - 1 {
      RawIndexComplete(hashes, coreClr, wide, infos, n - 1, i);
    } else {
      assert pair[0] in pair && pair[1] in pair;
    }
  }

  lemma {:induction false} SameElements(sorted: seq<IndexEntry>, raw: seq<IndexEntry>, e: IndexEntry)
    requires multiset(sorted) == multiset(raw)
    ensures e in sorted <==> e in raw
  {
    assert e in multiset(sorted) <==> e in multiset(raw);
  }

  /** Every sorted entry is one of the two of the assembly it points to, whichever hash is used. */
  lemma {:induction false} SortedIsSound(hashes: Hashes, coreClr: bool, wide: bool, infos: seq<AssemblyInfo>,
                                         sorted: seq<IndexEntry>, k: nat)
    requires |infos| <= INT32_MAX && IsSorting(sorted, RawIndex(hashes, coreClr, wide, infos, |infos|)) && k < |sorted|
    ensures EntryFor(hashes, coreClr, wide, infos, sorted[k])
  {
    var raw := RawIndex(hashes, coreClr, wide, infos, |infos|);
    SameElements(sorted, raw, sorted[k]);
    var j :| 0 <= j < |raw| && raw[j] == sorted[k];
    RawIndexSound(hashes, coreClr, wide, infos, |infos|, j);
  }

  /** Both entries of every assembly survive the sort. */
  lemma {:induction false} SortedIsComplete(hashes: Hashes, coreClr: bool, wide: bool, infos: seq<AssemblyInfo>,
                                            sorted: seq<IndexEntry>, i: nat)
    requires |infos| <= INT32_MAX && IsSorting(sorted, RawIndex(hashes, coreClr, wide, infos, |infos|)) && i < |infos|
    ensures Entry(hashes, coreClr, wide, infos[i].name, i, infos[i]) in sorted
    ensures Entry(hashes, coreClr, wide, infos[i].nameNoExt, i, infos[i]) in sorted
  {
    var raw := RawIndex(hashes, coreClr, wide, infos, |infos|);
    RawIndexComplete(hashes, coreClr, wide, infos, |infos|, i);
    SameElements(sorted, raw, Entry(hashes, coreClr, wide, infos[i].name, i, infos[i]));
    SameElements(sorted, raw, Entry(hashes, coreClr, wide, infos[i].nameNoExt, i, infos[i]));
  }

  // ----- Reading and mapping the written bytes -----

  /** The logical content of a store of either runtime. */
  function WrittenParts(hashes: Hashes, coreClr: bool, arch: Arch, infos: seq<AssemblyInfo>, sorted: seq<IndexEntry>,
                        ds: seq<Descriptor>): Parts
  {
    var wide := WideHashes(arch, coreClr);
    var rest := Metadata(sorted, wide, ds, Names(infos)) + Data(infos, |infos|);
    Parts(StoreHeader(arch, wide, |infos|, hashes.content(rest)), sorted, wide, ds, Names(infos), Data(infos, |infos|))
  }

  lemma {:induction false} SortedSize(hashes: Hashes, coreClr: bool, wide: bool, infos: seq<AssemblyInfo>,
                                      sorted: seq<IndexEntry>)
    requires |infos| <= INT32_MAX && IsSorting(sorted, RawIndex(hashes, coreClr, wide, infos, |infos|))
    ensures |sorted| == 2 * |infos|
  {
    assert |multiset(sorted)| == |multiset(RawIndex(hashes, coreClr, wide, infos, |infos|))|;
  }

  lemma {:induction false} HashesKept(hashes: Hashes, coreClr: bool, arch: Arch, infos: seq<AssemblyInfo>,
                                      sorted: seq<IndexEntry>)
    requires |infos| <= INT32_MAX
    requires IsSorting(sorted, RawIndex(hashes, coreClr, WideHashes(arch, coreClr), infos, |infos|))
    ensures forall k :: 0 <= k < |sorted| ==> Kept(sorted[k], WideHashes(arch, coreClr)) == sorted[k]
  {
    forall k | 0 <= k < |sorted| ensures Kept(sorted[k], WideHashes(arch, coreClr)) == sorted[k] {
      SortedIsSound(hashes, coreClr, WideHashes(arch, coreClr), infos, sorted, k);
    }
  }

  /** When the fixed-size metadata fits 32 bits, so does every count and size in the header. */
  lemma {:induction false} HeaderExact(arch: Arch, wide: bool, count: nat, contentId: U64)
    requires EntrySpan(wide, 2 * count) + DescriptorSpan(count) + HEADER_SIZE < 0x1_0000_0000
    ensures var h := StoreHeader(arch, wide, count, contentId);
            && h.entryCount == count && h.indexEntryCount == 2 * count && h.indexSize == EntrySpan(wide, 2 * count)
            && HEADER_SIZE + h.indexSize < 0x1_0000_0000 && 2 * count <= INT32_MAX
            && h.magic == ASSEMBLY_STORE_MAGIC && h.version == Version(arch)
  {
  }

  /** What `Generate` writes, for either runtime and any architecture, is a consistent store: the counts and
      sizes in its header are exact, and no hash is cut short. */
  lemma {:induction false} WrittenConsistent(file: seq<Byte>, hashes: Hashes, coreClr: bool, arch: Arch,
                                             infos: seq<AssemblyInfo>, sorted: seq<IndexEntry>)
    requires |infos| <= INT32_MAX && IsStore(file, hashes, coreClr, arch, infos, sorted) && NamesFit(infos)
    ensures var wide := WideHashes(arch, coreClr);
            var p := WrittenParts(hashes, coreClr, arch, infos, sorted, LaidFor(infos, wide).value.descriptors);
            && file == PartsBytes(p) && Consistent(p) && |p.entries| == 2 * |p.names| <= INT32_MAX
            && p.header.magic == ASSEMBLY_STORE_MAGIC && p.header.version == Version(arch)
  {
    var wide := WideHashes(arch, coreClr);
    var p := WrittenParts(hashes, coreClr, arch, infos, sorted, LaidFor(infos, wide).value.descriptors);
    hide WideHashes, Kept, Version, LayOut, Data, IndexBytes, DescriptorTable, NameTable, HeaderBytes;
    SortedSize(hashes, coreClr, wide, infos, sorted);
    DataStartExact(infos, wide);
    HeaderExact(arch, wide, |infos|, p.header.contentId);
    HashesKept(hashes, coreClr, arch, infos, sorted);
    forall i | 0 <= i < |p.names| ensures |p.names[i]| < 0x1_0000_0000 {
      assert |infos[i].name| < 0x1_0000_0000;
    }
  }

  ghost function WrittenDescriptors(file: seq<Byte>, hashes: Hashes, coreClr: bool, arch: Arch,
                                    infos: seq<AssemblyInfo>, sorted: seq<IndexEntry>): seq<Descriptor>
    requires |infos| <= INT32_MAX && IsStore(file, hashes, coreClr, arch, infos, sorted)
  {
    LaidFor(infos, WideHashes(arch, coreClr)).value.descriptors
  }

  lemma {:induction false} PartsDecode(file: seq<Byte>, p: Parts)
    requires file == PartsBytes(p) && Consistent(p)
    ensures Decodes(file, p)
  {
    hide Decodes, Consistent, PartsBytes, Lies;
    Sections(p);
    StoreDecodes(file, p);
  }

  lemma {:induction false} PartsAre(hashes: Hashes, coreClr: bool, arch: Arch, infos: seq<AssemblyInfo>,
                                    sorted: seq<IndexEntry>, ds: seq<Descriptor>)
    ensures var p := WrittenParts(hashes, coreClr, arch, infos, sorted, ds);
            p.entries == sorted && p.descriptors == ds && p.wide == WideHashes(arch, coreClr)
  {
  }

  /** A store of either runtime reads back through the generator's own readers to the header, the sorted index
      and the descriptors that were written. */
  method ReadWrittenBack(stream: Stream, ghost hashes: Hashes, ghost coreClr: bool, ghost arch: Arch,
                         ghost infos: seq<AssemblyInfo>, ghost sorted: seq<IndexEntry>)
    returns (header: ReadResult<Header>, index: ReadResult<seq<IndexEntry>>, descriptors: ReadResult<seq<Descriptor>>)
    requires |infos| <= INT32_MAX && IsStore(stream.data, hashes, coreClr, arch, infos, sorted) && NamesFit(infos)
    modifies stream
    ensures var ds := WrittenDescriptors(old(stream.data), hashes, coreClr, arch, infos, sorted);
            && header == Read(WrittenParts(hashes, coreClr, arch, infos, sorted, ds).header)
            && index == Read(sorted) && descriptors == Read(ds)
  {
    hide IsStore, Consistent, Decodes, PartsBytes, LayOut, WrittenParts, NamesFit, IsSorting;
    ghost var ds := WrittenDescriptors(stream.data, hashes, coreClr, arch, infos, sorted);
    ghost var p := WrittenParts(hashes, coreClr, arch, infos, sorted, ds);
    WrittenConsistent(stream.data, hashes, coreClr, arch, infos, sorted);
    PartsDecode(stream.data, p);
    PartsAre(hashes, coreClr, arch, infos, sorted, ds);
    ConsistentCounts(p);
    header, index, descriptors := ReadBack(stream, p);
  }

  lemma {:induction false} ConsistentCounts(p: Parts)
    requires Consistent(p) && |p.entries| <= INT32_MAX && 2 * |p.names| == |p.entries|
    ensures |p.descriptors| <= INT32_MAX
  {
  }

  /** A consistent store is configured to its tables. */
  lemma {:induction false} PartsConfigure(file: seq<Byte>, p: Parts)
    requires file == PartsBytes(p) && Consistent(p) && !p.wide && p.header.magic == ASSEMBLY_STORE_MAGIC
    ensures Configure(file, p.header.version) == Configured(View(p.entries, p.descriptors, p.names))
    ensures HoldsAt(file, DataStartOf(p), p.data)
  {
    Sections(p);
    StoreDecodes(file, p);
    NamesDecode(file, NamesStart(p), p.names);
    ConfigureReadsBack(file, p);
  }

  /** The reader configured from the written bytes sees the sorted index, the descriptors and the names;
      and the data area lies at the start position of the layout. */
  lemma {:induction false} WrittenConfigures(file: seq<Byte>, hashes: Hashes, arch: Arch, infos: seq<AssemblyInfo>,
                                             sorted: seq<IndexEntry>)
    requires Written(file, hashes, arch, infos, sorted) && NamesFit(infos)
    ensures Configure(file, Version(arch)) == Configured(View(sorted, Laid(infos).value.descriptors, Names(infos)))
    ensures HoldsAt(file, DataStart(infos, false), Data(infos, |infos|))
  {
    var p := WrittenParts(hashes, true, arch, infos, sorted, Laid(infos).value.descriptors);
    WrittenConsistent(file, hashes, true, arch, infos, sorted);
    PartsConfigure(file, p);
    assert DataStartOf(p) == MetadataSize(infos, false);
  }

  /** The hash that a runtime looks names up by: CRC-32 for CoreCLR, and for MonoVM xxHash of the word size. */
  function LookupHash(hashes: Hashes, coreClr: bool, arch: Arch, name: Name): U64 {
    if coreClr then hashes.crc32(name)
    else match arch
      case Arm64 => hashes.xxHash64(name)
      case X86_64 => hashes.xxHash64(name)
      case _ => hashes.xxHash32(name)
  }

  /** The index of a store has, for both names of every assembly, an entry with the hash its runtime looks for; and
      it has no other entry. */
  lemma {:induction false} IndexedByRuntime(file: seq<Byte>, hashes: Hashes, coreClr: bool, arch: Arch,
                                            infos: seq<AssemblyInfo>, sorted: seq<IndexEntry>)
    requires |infos| <= INT32_MAX && IsStore(file, hashes, coreClr, arch, infos, sorted)
    ensures forall i :: 0 <= i < |infos| ==>
              && IndexEntry(LookupHash(hashes, coreClr, arch, infos[i].name), i, infos[i].ignored) in sorted
              && IndexEntry(LookupHash(hashes, coreClr, arch, infos[i].nameNoExt), i, infos[i].ignored) in sorted
    ensures forall k :: 0 <= k < |sorted| ==>
              && sorted[k].descriptorIndex < |infos|
              && var info := infos[sorted[k].descriptorIndex];
                 && sorted[k].ignore == info.ignored
                 && sorted[k].nameHash in {LookupHash(hashes, coreClr, arch, info.name),
                                           LookupHash(hashes, coreClr, arch, info.nameNoExt)}
  {
    hide IsSorting, StoreBytes, LayOut, RawIndex;
    var wide := WideHashes(arch, coreClr);
    forall i | 0 <= i < |infos|
      ensures IndexEntry(LookupHash(hashes, coreClr, arch, infos[i].name), i, infos[i].ignored) in sorted
      ensures IndexEntry(LookupHash(hashes, coreClr, arch, infos[i].nameNoExt), i, infos[i].ignored) in sorted
    {
      SortedIsComplete(hashes, coreClr, wide, infos, sorted, i);
    }
    forall k | 0 <= k < |sorted| ensures EntryFor(hashes, coreClr, wide, infos, sorted[k]) {
      SortedIsSound(hashes, coreClr, wide, infos, sorted, k);
    }
  }

  /** The content identifier in a store's header is the hash of everything behind the header. */
  lemma {:induction false} ContentIdCovers(file: seq<Byte>, hashes: Hashes, coreClr: bool, arch: Arch,
                                           infos: seq<AssemblyInfo>, sorted: seq<IndexEntry>)
    requires |infos| <= INT32_MAX && IsStore(file, hashes, coreClr, arch, infos, sorted)
    ensures HEADER_SIZE <= |file| && HeaderAt(file, 0).contentId == hashes.content(file[HEADER_SIZE..])
  {
    hide LayOut, HeaderBytes, Metadata, Data, IsSorting, U32At, U64At;
    var wide := WideHashes(arch, coreClr);
    var ds := LaidFor(infos, wide).value.descriptors;
    var rest := Metadata(sorted, wide, ds, Names(infos)) + Data(infos, |infos|);
    var header := StoreHeader(arch, wide, |infos|, hashes.content(rest));
    assert file == HeaderBytes(header) + rest;
    assert file[HEADER_SIZE..] == rest && file[..HEADER_SIZE] == HeaderBytes(header);
    HeaderRoundTrip(file, 0, header);
  }

  // ----- Search -----

  predicate Matches(infos: seq<AssemblyInfo>, q: Name, i: nat)
    requires i < |infos|
  {
    NameMatches(q, infos[i].name)
  }

  /** The index stands for the list of names: what the scan finds is an entry of an assembly that the
      name matches, and it finds one whenever some assembly's name matches. */
  lemma {:induction false} ScanFindsMatches(hashes: Hashes, infos: seq<AssemblyInfo>, v: View, q: Name)
    requires |infos| <= INT32_MAX && NamesOk(infos) && v.names == Names(infos) && |v.descriptors| == |infos|
    requires IsSorting(v.entries, RawIndex(hashes, true, false, infos, |infos|))
    ensures var r := Scan(v, q, hashes.crc32(q), 0);
            && (r.Some? ==> EntryFor(hashes, true, false, infos, v.entries[r.value])
                            && Matches(infos, q, v.entries[r.value].descriptorIndex))
            && (r == None ==> forall i :: 0 <= i < |infos| ==> !Matches(infos, q, i))
  {
    var r := Scan(v, q, hashes.crc32(q), 0);
    if r.Some? {
      SortedIsSound(hashes, true, false, infos, v.entries, r.value);
    } else {
      forall i | 0 <= i < |infos| ensures !Matches(infos, q, i) {
        if Matches(infos, q, i) {
          SortedIsComplete(hashes, true, false, infos, v.entries, i);
          assert WellNamed(infos[i]);
          var e := if q == infos[i].name then Entry(hashes, true, false, infos[i].name, i, infos[i])
                   else Entry(hashes, true, false, infos[i].nameNoExt, i, infos[i]);
          var k :| 0 <= k < |v.entries| && v.entries[k] == e;
          assert EntryMatches(v, q, hashes.crc32(q), k);
        }
      }
    }
  }

  // ----- Images -----

  predicate IsCompressed(source: seq<Byte>) { |source| >= 4 && U32At(source, 0) == COMPRESSED_DATA_MAGIC }

  /** Behind the compressed magic, a whole header and data that decompress to the length the header states. */
  predicate WellFormed(zstd: Decompressor, source: seq<Byte>) {
    IsCompressed(source) ==>
      && |source| >= COMPRESSED_HEADER_SIZE
      && zstd(source[COMPRESSED_HEADER_SIZE..]).Some?
      && |zstd(source[COMPRESSED_HEADER_SIZE..]).value| == U32At(source, 8)
  }

  /** The reader looks at four bytes of an image whatever its size: those of a shorter one must be in the
      payload, and what follows it must not complete the compressed magic. */
  predicate Legible(payload: seq<Byte>, image: nat, source: seq<Byte>) {
    |source| >= 4 || (image + 4 <= |payload| && U32At(payload, image) != COMPRESSED_DATA_MAGIC)
  }

  /** The assembly's uncompressed bytes. */
  function Uncompressed(zstd: Decompressor, source: seq<Byte>): seq<Byte>
    requires WellFormed(zstd, source)
  {
    if IsCompressed(source) then zstd(source[COMPRESSED_HEADER_SIZE..]).value else source
  }

  predicate StoredOk(zstd: Decompressor, info: AssemblyInfo) {
    info.ignored || (info.source.Some? && WellFormed(zstd, info.source.value))
  }

  predicate UsesCad(info: AssemblyInfo) {
    !info.ignored && info.source.Some? && |info.source.value| >= 8 && IsCompressed(info.source.value)
  }

  function CadIndex(info: AssemblyInfo): U32
    requires UsesCad(info)
  {
    U32At(info.source.value, 4)
  }

  /** Well-formed images, each compressed one with a compressed descriptor of its own. */
  predicate ImagesOk(zstd: Decompressor, infos: seq<AssemblyInfo>) {
    && (forall i :: 0 <= i < |infos| ==> StoredOk(zstd, infos[i]))
    && (forall i, j :: 0 <= i < j < |infos| && UsesCad(infos[i]) && UsesCad(infos[j]) ==>
        CadIndex(infos[i]) != CadIndex(infos[j]))
  }

  // ----- The runtime invariant -----

  predicate DisjointCads(a: Cad, b: Cad) { a.offset + a.size <= b.offset || b.offset + b.size <= a.offset }

  predicate CadsApart(cads: seq<Cad>) {
    forall a, b :: 0 <= a < b < |cads| ==> DisjointCads(cads[a], cads[b])
  }

  /** A cad in bounds; once loaded, its range of the buffer holds `output`; before, there is room for it. */
  predicate CadHolds(cad: Cad, buffer: seq<Byte>, output: seq<Byte>) {
    && cad.offset < |buffer| && cad.offset + cad.size <= |buffer|
    && if cad.loaded then buffer[cad.offset..cad.offset + cad.size] == output else |output| <= cad.size
  }

  predicate CadOk(zstd: Decompressor, info: AssemblyInfo, cads: seq<Cad>, buffer: seq<Byte>)
    requires StoredOk(zstd, info)
  {
    UsesCad(info) ==>
      CadIndex(info) < |cads| && CadHolds(cads[CadIndex(info)], buffer, Uncompressed(zstd, info.source.value))
  }

  predicate CadsOk(zstd: Decompressor, infos: seq<AssemblyInfo>, cads: seq<Cad>, buffer: seq<Byte>)
    requires ImagesOk(zstd, infos)
  {
    CadsApart(cads) && forall i :: 0 <= i < |infos| ==> CadOk(zstd, infos[i], cads, buffer)
  }

  /** What the slot of stored assembly `i` caches: where its image is, its descriptor, and where its symbols are
      when it has some. */
  function SlotOf(d: Descriptor, i: nat): Slot {
    Filled(d.dataOffset, i, if d.debugOffset == 0 then None else Some(d.debugOffset))
  }

  /** The slot of stored assembly `i` is empty or caches that assembly. */
  predicate SlotOk(slots: seq<Slot>, d: Descriptor, i: nat) {
    d.mappingIndex < |slots| && (slots[d.mappingIndex].Filled? ==> slots[d.mappingIndex] == SlotOf(d, i))
  }

  /** Everything about stored assembly `i` is cached: its slot is filled, and a compressed image is decompressed. */
  predicate Cached(info: AssemblyInfo, d: Descriptor, i: nat, rt: Runtime) {
    && d.mappingIndex < |rt.slots| && rt.slots[d.mappingIndex] == SlotOf(d, i)
    && (UsesCad(info) ==> CadIndex(info) < |rt.cads| && rt.cads[CadIndex(info)].loaded)
  }

  predicate SlotsOk(infos: seq<AssemblyInfo>, ds: seq<Descriptor>, slots: seq<Slot>)
    requires |ds| == |infos|
  {
    forall i :: 0 <= i < |infos| && !infos[i].ignored ==> SlotOk(slots, ds[i], i)
  }

  predicate RuntimeOk(zstd: Decompressor, infos: seq<AssemblyInfo>, ds: seq<Descriptor>, rt: Runtime)
    requires ImagesOk(zstd, infos) && |ds| == |infos|
  {
    SlotsOk(infos, ds, rt.slots) && CadsOk(zstd, infos, rt.cads, rt.buffer)
  }

  /** Stored assemblies have slots of their own. */
  predicate MappingsApart(infos: seq<AssemblyInfo>, ds: seq<Descriptor>)
    requires |ds| == |infos|
  {
    forall i, j :: 0 <= i < j < |infos| && !infos[i].ignored && !infos[j].ignored ==>
      ds[i].mappingIndex != ds[j].mappingIndex
  }

  /** Filling a slot from its owner's descriptor disturbs no other assembly's slot. */
  lemma {:induction false} FillKeepsSlots(infos: seq<AssemblyInfo>, v: View, slots: seq<Slot>, i: nat)
    requires |v.descriptors| == |infos| && MappingsApart(infos, v.descriptors) && SlotsOk(infos, v.descriptors, slots)
    requires i < |infos| && !infos[i].ignored && v.descriptors[i].mappingIndex < |slots|
    ensures var m := v.descriptors[i].mappingIndex;
            var slot := FillSlot(v, i, slots[m]);
            && slot == SlotOf(v.descriptors[i], i)
            && SlotsOk(infos, v.descriptors, slots[m := slot])
  {
    assert SlotOk(slots, v.descriptors[i], i);
    var m := v.descriptors[i].mappingIndex;
    var after := slots[m := FillSlot(v, i, slots[m])];
    forall j | 0 <= j < |infos| && !infos[j].ignored ensures SlotOk(after, v.descriptors[j], j) {
      assert SlotOk(slots, v.descriptors[j], j);
      assert j != i ==> v.descriptors[j].mappingIndex != m;
    }
  }

  /** Decompressing into one range leaves what another, disjoint cad holds. */
  lemma {:induction false} OtherCadKept(a: Cad, b: Cad, buffer: seq<Byte>, written: seq<Byte>, output: seq<Byte>)
    requires a.offset + |written| <= |buffer| && |written| <= a.size && DisjointCads(a, b)
             && CadHolds(b, buffer, output)
    ensures CadHolds(b, buffer[..a.offset] + written + buffer[a.offset + |written|..], output)
  {
    var after := buffer[..a.offset] + written + buffer[a.offset + |written|..];
    if b.loaded {
      assert after[b.offset..b.offset + b.size] == buffer[b.offset..b.offset + b.size];
    }
  }

  // ----- Loading -----

  /** Reading through an image's place in the payload is reading the image. */
  lemma {:induction false} WordInImage(payload: seq<Byte>, image: nat, source: seq<Byte>, at: nat)
    requires HoldsAt(payload, image, source) && at + 4 <= |source|
    ensures U32At(payload, image + at) == U32At(source, at)
  {
    var part := payload[image..image + |source|];
    assert part[at] == payload[image + at] && part[at + 1] == payload[image + at + 1];
    assert part[at + 2] == payload[image + at + 2] && part[at + 3] == payload[image + at + 3];
  }

  /** A compressed image's header fields and data, at `image` in the payload. */
  predicate CompressedAt(payload: seq<Byte>, image: nat, source: seq<Byte>) {
    && |source| >= COMPRESSED_HEADER_SIZE && image + |source| <= |payload|
    && U32At(payload, image + 4) == U32At(source, 4) && U32At(payload, image + 8) == U32At(source, 8)
    && payload[image + COMPRESSED_HEADER_SIZE..image + |source|] == source[COMPRESSED_HEADER_SIZE..]
  }

  lemma {:induction false} CompressedInImage(payload: seq<Byte>, image: nat, source: seq<Byte>)
    requires HoldsAt(payload, image, source) && |source| >= COMPRESSED_HEADER_SIZE
    ensures CompressedAt(payload, image, source)
  {
    WordInImage(payload, image, source, 4);
    WordInImage(payload, image, source, 8);
    assert source[COMPRESSED_HEADER_SIZE..] == payload[image..image + |source|][COMPRESSED_HEADER_SIZE..];
  }

  /** The buffer and the descriptors once `output` is decompressed through cad `d`. */
  function Decompressed(rt: Runtime, d: nat, output: seq<Byte>): Runtime
    requires d < |rt.cads| && rt.cads[d].offset + |output| <= |rt.buffer|
  {
    var cad := rt.cads[d];
    Runtime(rt.slots, rt.cads[d := cad.(size := |output|, loaded := true)],
            rt.buffer[..cad.offset] + output + rt.buffer[cad.offset + |output|..])
  }

  /** Decompressing shrinks one range: the ranges stay disjoint, this one now holds its output, and any
      other still holds what it held. */
  lemma {:induction false} DecompressedCads(rt: Runtime, d: nat, output: seq<Byte>)
    requires d < |rt.cads| && CadsApart(rt.cads) && !rt.cads[d].loaded && CadHolds(rt.cads[d], rt.buffer, output)
    ensures var after := Decompressed(rt, d, output);
            CadsApart(after.cads) && CadHolds(after.cads[d], after.buffer, output)
  {
    var cad, after := rt.cads[d], Decompressed(rt, d, output);
    assert after.buffer[cad.offset..cad.offset + |output|] == output;
    forall a, b | 0 <= a < b < |rt.cads| ensures DisjointCads(after.cads[a], after.cads[b]) {
      assert DisjointCads(rt.cads[a], rt.cads[b]);
    }
  }

  lemma {:induction false} OtherCadsKept(rt: Runtime, d: nat, output: seq<Byte>, e: nat, kept: seq<Byte>)
    requires d < |rt.cads| && CadsApart(rt.cads) && !rt.cads[d].loaded && CadHolds(rt.cads[d], rt.buffer, output)
    requires e < |rt.cads| && e != d && CadHolds(rt.cads[e], rt.buffer, kept)
    ensures var after := Decompressed(rt, d, output); CadHolds(after.cads[e], after.buffer, kept)
  {
    assert DisjointCads(rt.cads[d], rt.cads[e]) by {
      assert DisjointCads(rt.cads[if d < e then d else e], rt.cads[if d < e then e else d]);
    }
    OtherCadKept(rt.cads[d], rt.cads[e], rt.buffer, output, kept);
  }

  lemma {:induction false} DecompressionKeepsCads(zstd: Decompressor, infos: seq<AssemblyInfo>, rt: Runtime, i: nat)
    requires ImagesOk(zstd, infos) && CadsOk(zstd, infos, rt.cads, rt.buffer)
    requires i < |infos| && UsesCad(infos[i]) && CadIndex(infos[i]) < |rt.cads| && !rt.cads[CadIndex(infos[i])].loaded
    ensures var d, output := CadIndex(infos[i]), Uncompressed(zstd, infos[i].source.value);
            && rt.cads[d].offset + |output| <= |rt.buffer|
            && var after := Decompressed(rt, d, output); CadsOk(zstd, infos, after.cads, after.buffer)
  {
    assert StoredOk(zstd, infos[i]) && CadOk(zstd, infos[i], rt.cads, rt.buffer);
    var d, output := CadIndex(infos[i]), Uncompressed(zstd, infos[i].source.value);
    DecompressedCads(rt, d, output);
    var after := Decompressed(rt, d, output);
    forall j | 0 <= j < |infos| ensures CadOk(zstd, infos[j], after.cads, after.buffer) {
      assert StoredOk(zstd, infos[j]) && CadOk(zstd, infos[j], rt.cads, rt.buffer);
      if j != i && UsesCad(infos[j]) {
        assert CadIndex(infos[j]) != d;
        OtherCadsKept(rt, d, output, CadIndex(infos[j]), Uncompressed(zstd, infos[j].source.value));
      }
    }
  }

  lemma {:induction false} CompressedLoads(payload: seq<Byte>, zstd: Decompressor, image: nat, source: seq<Byte>,
                                           rt: Runtime)
    requires CompressedAt(payload, image, source) && IsCompressed(source) && WellFormed(zstd, source)
             && |source| < 0x1_0000_0000
    requires U32At(source, 4) < |rt.cads| && CadHolds(rt.cads[U32At(source, 4)], rt.buffer, Uncompressed(zstd, source))
    ensures var d, output := U32At(source, 4), Uncompressed(zstd, source);
            GetCompressed(payload, zstd, image, |source|, rt) ==
            (Loaded(output), if rt.cads[d].loaded then rt else Decompressed(rt, d, output))
  {
  }

  /** Decompressing for the first time, into a place that lies in the buffer, gives the whole output or aborts the
      application: it succeeds exactly when there is an output, of the length that the header states, and the place
      is large enough. */
  lemma {:induction false} FirstLoadExactly(payload: seq<Byte>, zstd: Decompressor, image: nat, source: seq<Byte>,
                                            rt: Runtime)
    requires CompressedAt(payload, image, source) && |source| < 0x1_0000_0000 && U32At(source, 4) < |rt.cads|
    requires var cad := rt.cads[U32At(source, 4)];
             !cad.loaded && cad.offset < |rt.buffer| && cad.offset + cad.size <= |rt.buffer|
    ensures var output, cad := zstd(source[COMPRESSED_HEADER_SIZE..]), rt.cads[U32At(source, 4)];
            var (r, after) := GetCompressed(payload, zstd, image, |source|, rt);
            if output.Some? && |output.value| == U32At(source, 8) <= cad.size
            then r == Loaded(output.value) && after == Decompressed(rt, U32At(source, 4), output.value)
            else r == Aborted && after == rt
  {
    hide U32At;
  }

  /** An image in the payload loads to its uncompressed bytes: copied, decompressed now, or already in
      the buffer; and no other assembly's cached bytes change. */
  lemma {:induction false} ImageLoads(payload: seq<Byte>, zstd: Decompressor, infos: seq<AssemblyInfo>, image: nat,
                                      i: nat, rt: Runtime)
    requires ImagesOk(zstd, infos) && CadsOk(zstd, infos, rt.cads, rt.buffer)
    requires i < |infos| && StoredOk(zstd, infos[i]) && !infos[i].ignored
    requires HoldsAt(payload, image, infos[i].source.value) && |infos[i].source.value| < 0x1_0000_0000
    requires Legible(payload, image, infos[i].source.value)
    ensures var (r, after) := GetAssemblyData(payload, zstd, image, |infos[i].source.value|, rt);
            && r == Loaded(Uncompressed(zstd, infos[i].source.value))
            && after.slots == rt.slots && CadsOk(zstd, infos, after.cads, after.buffer)
            && (UsesCad(infos[i]) ==> CadIndex(infos[i]) < |after.cads| && after.cads[CadIndex(infos[i])].loaded)
            && ((UsesCad(infos[i]) ==> CadIndex(infos[i]) < |rt.cads| && rt.cads[CadIndex(infos[i])].loaded) ==>
                  after == rt)
  {
    var source := infos[i].source.value;
    if |source| >= 4 {
      WordInImage(payload, image, source, 0);
    }
    if IsCompressed(source) {
      CompressedInImage(payload, image, source);
      assert CadOk(zstd, infos[i], rt.cads, rt.buffer);
      CompressedLoads(payload, zstd, image, source, rt);
      if !rt.cads[CadIndex(infos[i])].loaded {
        DecompressionKeepsCads(zstd, infos, rt, i);
      }
    }
  }

  /** Opening the entry of assembly `i`: nothing for an ignored one, and otherwise its uncompressed
      bytes. Either way every slot and every cached image stays its owner's. */
  lemma {:induction false} OpenEntryAnswers(payload: seq<Byte>, zstd: Decompressor, infos: seq<AssemblyInfo>, v: View,
                                            e: IndexEntry, rt: Runtime)
    requires ImagesOk(zstd, infos) && |v.descriptors| == |infos| && RuntimeOk(zstd, infos, v.descriptors, rt)
    requires e.descriptorIndex < |infos| && e.ignore == infos[e.descriptorIndex].ignored
    requires MappingsApart(infos, v.descriptors) && ImagesInPlace(payload, infos, v.descriptors)
    ensures var (r, after) := OpenEntry(payload, v, zstd, e, rt);
            && r == Answer(zstd, infos[e.descriptorIndex])
            && RuntimeOk(zstd, infos, v.descriptors, after)
            && (e.ignore ==> after == rt)
            && var i := e.descriptorIndex;
               && (!e.ignore ==> Cached(infos[i], v.descriptors[i], i, after))
               && (Cached(infos[i], v.descriptors[i], i, rt) ==> after == rt)
  {
    var i := e.descriptorIndex;
    if !e.ignore {
      assert SlotOk(rt.slots, v.descriptors[i], i) && StoredOk(zstd, infos[i]);
      FillKeepsSlots(infos, v, rt.slots, i);
      assert ImageInPlace(payload, infos[i], v.descriptors[i]);
      var m := v.descriptors[i].mappingIndex;
      ImageLoads(payload, zstd, infos, v.descriptors[i].dataOffset, i,
                 Runtime(rt.slots[m := FillSlot(v, i, rt.slots[m])], rt.cads, rt.buffer));
    }
  }

  predicate ImageInPlace(payload: seq<Byte>, info: AssemblyInfo, d: Descriptor) {
    !info.ignored ==>
      && d.dataSize == Length(info.source) && HoldsAt(payload, d.dataOffset, Contents(info.source))
      && Legible(payload, d.dataOffset, Contents(info.source))
  }

  /** How an image too short for the four bytes fares: it is the reader's copy of it exactly when it is
      legible; at the payload's end the reader runs past it, and when the magic is completed by what follows
      the reader never decompresses it: at best it hands out what some loaded descriptor holds. */
  lemma {:induction false} ShortImage(payload: seq<Byte>, zstd: Decompressor, image: nat, source: seq<Byte>,
                                      rt: Runtime)
    requires HoldsAt(payload, image, source) && |source| < 4
    ensures var (r, after) := GetAssemblyData(payload, zstd, image, |source|, rt);
            && (Legible(payload, image, source) ==> r == Loaded(source) && after == rt)
            && (image + 4 > |payload| ==> r == Overrun)
            && (!Legible(payload, image, source) && r.Loaded? ==>
                  exists d :: 0 <= d < |rt.cads| && rt.cads[d].loaded && HandsOut(rt, d, r.bytes))
            && after == rt
  {
    hide U32At;
    if image + COMPRESSED_HEADER_SIZE <= |payload| {
      var d := U32At(payload, image + 4);
      if d < |rt.cads| && rt.cads[d].loaded && rt.cads[d].offset + rt.cads[d].size <= |rt.buffer| {
        assert HandsOut(rt, d, rt.buffer[rt.cads[d].offset..rt.cads[d].offset + rt.cads[d].size]);
      }
    }
  }

  predicate HandsOut(rt: Runtime, d: nat, bytes: seq<Byte>) {
    && d < |rt.cads| && rt.cads[d].offset + rt.cads[d].size <= |rt.buffer|
    && bytes == rt.buffer[rt.cads[d].offset..rt.cads[d].offset + rt.cads[d].size]
  }

  /** Every stored image is legible in the written file; all are that have at least four bytes. */
  predicate AllLegible(file: seq<Byte>, infos: seq<AssemblyInfo>, ds: seq<Descriptor>)
    requires |ds| == |infos|
  {
    forall i :: 0 <= i < |infos| && !infos[i].ignored ==> Legible(file, ds[i].dataOffset, Contents(infos[i].source))
  }

  predicate ImagesInPlace(payload: seq<Byte>, infos: seq<AssemblyInfo>, ds: seq<Descriptor>)
    requires |ds| == |infos|
  {
    forall i :: 0 <= i < |infos| ==> ImageInPlace(payload, infos[i], ds[i])
  }

  // ----- The plain list of assemblies -----

  /** What opening the name of `info` should give: null for an ignored assembly, else its bytes. */
  function Answer(zstd: Decompressor, info: AssemblyInfo): OpenResult
    requires StoredOk(zstd, info)
  {
    if info.ignored then Ignored else Loaded(Uncompressed(zstd, info.source.value))
  }

  /** The reference: `q` is unknown and matches no assembly, or `r` is the answer for one it matches. */
  ghost predicate Answers(zstd: Decompressor, infos: seq<AssemblyInfo>, q: Name, r: OpenResult)
    requires ImagesOk(zstd, infos)
  {
    if r == NotFound then forall i :: 0 <= i < |infos| ==> !Matches(infos, q, i)
    else exists i :: 0 <= i < |infos| && Matches(infos, q, i) && r == Answer(zstd, infos[i])
  }

  predicate Unambiguous(infos: seq<AssemblyInfo>, q: Name) {
    forall i, j :: 0 <= i < j < |infos| ==> !(Matches(infos, q, i) && Matches(infos, q, j))
  }

  /** The state that `Written` and `Configure` set up: everything the openings rely on. */
  ghost predicate Opened(payload: seq<Byte>, zstd: Decompressor, hashes: Hashes, infos: seq<AssemblyInfo>, v: View) {
    && |infos| <= INT32_MAX && NamesOk(infos) && ImagesOk(zstd, infos)
    && IsSorting(v.entries, RawIndex(hashes, true, false, infos, |infos|))
    && v.names == Names(infos) && |v.descriptors| == |infos|
    && MappingsApart(infos, v.descriptors) && ImagesInPlace(payload, infos, v.descriptors)
  }

  /** A written store whose assemblies' lengths fit can be opened from. */
  lemma {:induction false} WrittenOpens(file: seq<Byte>, zstd: Decompressor, hashes: Hashes, arch: Arch,
                                        infos: seq<AssemblyInfo>, sorted: seq<IndexEntry>)
    requires Written(file, hashes, arch, infos, sorted)
    requires NamesOk(infos) && ImagesOk(zstd, infos) && LengthsFit(infos, |infos|)
    requires AllLegible(file, infos, Laid(infos).value.descriptors)
    ensures Configure(file, Version(arch)) == Configured(View(sorted, Laid(infos).value.descriptors, Names(infos)))
    ensures Opened(file, zstd, hashes, infos, View(sorted, Laid(infos).value.descriptors, Names(infos)))
  {
    var start, ds := DataStart(infos, false), Laid(infos).value.descriptors;
    WrittenConfigures(file, hashes, arch, infos, sorted);
    forall i, j | 0 <= i < j < |infos| && !infos[i].ignored && !infos[j].ignored
      ensures ds[i].mappingIndex != ds[j].mappingIndex
    {
      MappingDistinct(infos, start, i, j);
    }
    forall i | 0 <= i < |infos| ensures ImageInPlace(file, infos[i], ds[i]) {
      if !infos[i].ignored {
        DataTiles(infos, start, i);
        ImageAt(infos, start, file, i);
      }
    }
  }

  /** One open answers as the plain list does and keeps every cached fact. */
  lemma {:induction false} OpenAnswers(payload: seq<Byte>, zstd: Decompressor, hashes: Hashes,
                                       infos: seq<AssemblyInfo>, v: View, q: Name, rt: Runtime)
    requires Opened(payload, zstd, hashes, infos, v) && RuntimeOk(zstd, infos, v.descriptors, rt)
    ensures var (r, after) := Open(payload, v, zstd, hashes.crc32, q, rt);
            Answers(zstd, infos, q, r) && RuntimeOk(zstd, infos, v.descriptors, after)
            && (!r.Loaded? ==> after == rt)
  {
    ScanFindsMatches(hashes, infos, v, q);
    var found := Scan(v, q, hashes.crc32(q), 0);
    if found.Some? {
      var e := v.entries[found.value];
      OpenEntryAnswers(payload, zstd, infos, v, e, rt);
      assert Matches(infos, q, e.descriptorIndex);
    }
  }

  /** An open that hands out bytes leaves its assembly cached, whole. */
  lemma {:induction false} OpenCaches(payload: seq<Byte>, zstd: Decompressor, hashes: Hashes,
                                      infos: seq<AssemblyInfo>, v: View, q: Name, rt: Runtime)
    requires Opened(payload, zstd, hashes, infos, v) && RuntimeOk(zstd, infos, v.descriptors, rt)
    ensures var (r, after) := Open(payload, v, zstd, hashes.crc32, q, rt);
            r.Loaded? ==> exists i :: 0 <= i < |infos| && Matches(infos, q, i) && !infos[i].ignored
                                      && Cached(infos[i], v.descriptors[i], i, after)
  {
    hide RuntimeOk, Cached, ImagesOk, NamesOk, MappingsApart, ImagesInPlace, OpenEntry, IsSorting;
    ScanFindsMatches(hashes, infos, v, q);
    var found := Scan(v, q, hashes.crc32(q), 0);
    if found.Some? {
      var e := v.entries[found.value];
      OpenEntryAnswers(payload, zstd, infos, v, e, rt);
      assert Matches(infos, q, e.descriptorIndex);
    }
  }

  /** Opening the same name again gives the same answer from the cache, and changes nothing. */
  lemma {:induction false} OpenAgain(payload: seq<Byte>, zstd: Decompressor, hashes: Hashes,
                                     infos: seq<AssemblyInfo>, v: View, q: Name, rt: Runtime)
    requires Opened(payload, zstd, hashes, infos, v) && RuntimeOk(zstd, infos, v.descriptors, rt)
    ensures var (r, after) := Open(payload, v, zstd, hashes.crc32, q, rt);
            Open(payload, v, zstd, hashes.crc32, q, after) == (r, after)
  {
    hide RuntimeOk, Cached, ImagesOk, NamesOk, MappingsApart, ImagesInPlace, OpenEntry, IsSorting;
    ScanFindsMatches(hashes, infos, v, q);
    var found := Scan(v, q, hashes.crc32(q), 0);
    if found.Some? {
      var e := v.entries[found.value];
      OpenEntryAnswers(payload, zstd, infos, v, e, rt);
      OpenEntryAnswers(payload, zstd, infos, v, e, OpenEntry(payload, v, zstd, e, rt).1);
    }
  }

  /** Any number of opens, one after the other. */
  function OpenAll(payload: seq<Byte>, v: View, zstd: Decompressor, crc32: Name -> U32, names: seq<Name>,
                   rt: Runtime): (seq<OpenResult>, Runtime)
  {
    if names == [] then ([], rt)
    else
      var (r, next) := Open(payload, v, zstd, crc32, names[0], rt);
      var (rest, after) := OpenAll(payload, v, zstd, crc32, names[1..], next);
      ([r] + rest, after)
  }

  ghost predicate AllAnswer(zstd: Decompressor, infos: seq<AssemblyInfo>, names: seq<Name>, results: seq<OpenResult>)
    requires ImagesOk(zstd, infos)
  {
    |results| == |names| && forall k :: 0 <= k < |names| ==> Answers(zstd, infos, names[k], results[k])
  }

  lemma {:induction false} AnswerFirst(zstd: Decompressor, infos: seq<AssemblyInfo>, names: seq<Name>, r: OpenResult,
                                       rest: seq<OpenResult>)
    requires ImagesOk(zstd, infos) && names != [] && Answers(zstd, infos, names[0], r)
             && AllAnswer(zstd, infos, names[1..], rest)
    ensures AllAnswer(zstd, infos, names, [r] + rest)
  {
    forall k | 0 <= k < |names| ensures Answers(zstd, infos, names[k], ([r] + rest)[k]) {
      if k > 0 {
        assert Answers(zstd, infos, names[1..][k - 1], rest[k - 1]);
      }
    }
  }

  lemma {:induction false} OpensAnswer(payload: seq<Byte>, zstd: Decompressor, hashes: Hashes,
                                       infos: seq<AssemblyInfo>, v: View, names: seq<Name>, rt: Runtime)
    requires Opened(payload, zstd, hashes, infos, v) && RuntimeOk(zstd, infos, v.descriptors, rt)
    ensures var (results, after) := OpenAll(payload, v, zstd, hashes.crc32, names, rt);
            AllAnswer(zstd, infos, names, results) && RuntimeOk(zstd, infos, v.descriptors, after)
  {
    if names != [] {
      OpenAnswers(payload, zstd, hashes, infos, v, names[0], rt);
      var (r, next) := Open(payload, v, zstd, hashes.crc32, names[0], rt);
      OpensAnswer(payload, zstd, hashes, infos, v, names[1..], next);
      AnswerFirst(zstd, infos, names, r, OpenAll(payload, v, zstd, hashes.crc32, names[1..], next).0);
    }
  }

  /** End to end: a store written for any hash function and list of assemblies, configured from its own
      bytes, answers any sequence of names as the plain list of assemblies does, whatever was opened
      before; and after it every filled slot is its owner's and every loaded cad holds its output. */
  lemma {:induction false} WriteMapOpen(file: seq<Byte>, zstd: Decompressor, hashes: Hashes, arch: Arch,
                                        infos: seq<AssemblyInfo>, sorted: seq<IndexEntry>, names: seq<Name>,
                                        rt: Runtime)
    requires Written(file, hashes, arch, infos, sorted)
    requires NamesOk(infos) && ImagesOk(zstd, infos) && LengthsFit(infos, |infos|)
    requires AllLegible(file, infos, Laid(infos).value.descriptors)
    requires RuntimeOk(zstd, infos, Laid(infos).value.descriptors, rt)
    ensures Configure(file, Version(arch)).Configured?
    ensures var v := Configure(file, Version(arch)).view;
            var (results, after) := OpenAll(file, v, zstd, hashes.crc32, names, rt);
            AllAnswer(zstd, infos, names, results) && RuntimeOk(zstd, infos, Laid(infos).value.descriptors, after)
  {
    WrittenOpens(file, zstd, hashes, arch, infos, sorted);
    OpensAnswer(file, zstd, hashes, infos, View(sorted, Laid(infos).value.descriptors, Names(infos)), names, rt);
  }

  /** For a name that at most one assembly has, with or without extension, the answer is determined: an
      assembly's own bytes, null when it is ignored, and null when nobody has the name. */
  lemma {:induction false} UnambiguousAnswer(zstd: Decompressor, infos: seq<AssemblyInfo>, q: Name, r: OpenResult,
                                             i: nat)
    requires ImagesOk(zstd, infos) && Answers(zstd, infos, q, r) && Unambiguous(infos, q)
    requires i < |infos| && Matches(infos, q, i)
    ensures r == Answer(zstd, infos[i])
  {
    var j :| 0 <= j < |infos| && Matches(infos, q, j) && r == Answer(zstd, infos[j]);
    assert i == j;
  }

  /** Opening `q` gives the answer of `info`, and touches nothing when that is ignored. */
  predicate GivesAnswer(payload: seq<Byte>, zstd: Decompressor, crc32: Name -> U32, v: View, q: Name, rt: Runtime,
                        info: AssemblyInfo)
    requires StoredOk(zstd, info)
  {
    var (r, after) := Open(payload, v, zstd, crc32, q, rt);
    r == Answer(zstd, info) && (info.ignored ==> r == Ignored && after == rt)
  }

  /** So opening an unambiguous name gives the answer of the assembly that has it. */
  lemma {:induction false} OpenExact(payload: seq<Byte>, zstd: Decompressor, hashes: Hashes, infos: seq<AssemblyInfo>,
                                     v: View, q: Name, rt: Runtime, i: nat)
    requires Opened(payload, zstd, hashes, infos, v) && RuntimeOk(zstd, infos, v.descriptors, rt)
    requires Unambiguous(infos, q) && i < |infos| && Matches(infos, q, i)
    requires StoredOk(zstd, infos[i])
    ensures GivesAnswer(payload, zstd, hashes.crc32, v, q, rt, infos[i])
  {
    OpenAnswers(payload, zstd, hashes, infos, v, q, rt);
    UnambiguousAnswer(zstd, infos, q, Open(payload, v, zstd, hashes.crc32, q, rt).0, i);
  }

  /** Before the first open: empty slots, one for each stored assembly, and nothing loaded. */
  lemma {:induction false} FreshRuntimeOk(zstd: Decompressor, infos: seq<AssemblyInfo>, rt: Runtime)
    requires |infos| <= INT32_MAX && Laid(infos).Some? && ImagesOk(zstd, infos)
    requires |rt.slots| == CountStored(infos, |infos|) && (forall m :: 0 <= m < |rt.slots| ==> rt.slots[m] == Empty)
    requires CadsOk(zstd, infos, rt.cads, rt.buffer)
    ensures RuntimeOk(zstd, infos, Laid(infos).value.descriptors, rt)
  {
    var start, ds := DataStart(infos, false), Laid(infos).value.descriptors;
    forall i | 0 <= i < |infos| && !infos[i].ignored ensures SlotOk(rt.slots, ds[i], i) {
      MappingIs(infos, start, i);
    }
  }
}
