/** The assembly store's byte layout: header, index, descriptors and names, little-endian and packed. */
module StoreFormat {
  import opened Basics

  const ASSEMBLY_STORE_MAGIC: U32 := 0x41424158
  const COMPRESSED_DATA_MAGIC: U32 := 0x535A4158

  const HEADER_SIZE: nat := 28
  const ENTRY_SIZE_32: nat := 9
  const ENTRY_SIZE_64: nat := 13
  const DESCRIPTOR_SIZE: nat := 28

  datatype Header = Header(magic: U32, version: U32, entryCount: U32, indexEntryCount: U32, indexSize: U32,
                           contentId: U64)

  datatype IndexEntry = IndexEntry(nameHash: U64, descriptorIndex: U32, ignore: bool)

  datatype Descriptor = Descriptor(
    mappingIndex: U32,
    dataOffset: U32, dataSize: U32,
    debugOffset: U32, debugSize: U32,
    configOffset: U32, configSize: U32)

  // ----- Records -----

  /** 32-bit numbers one after the other. */
  function WordsBytes(words: seq<U32>): (bs: seq<Byte>)
    ensures |bs| == 4 * |words|
  {
    if words == [] then [] else U32Bytes(words[0]) + WordsBytes(words[1..])
  }

  lemma {:induction false} WordAt(bs: seq<Byte>, at: nat, words: seq<U32>, i: nat)
    requires HoldsAt(bs, at, WordsBytes(words)) && i < |words|
    ensures U32At(bs, at + 4 * i) == words[i]
    decreases i
  {
    HoldsSplit(bs, at, U32Bytes(words[0]), WordsBytes(words[1..]));
    if i == 0 {
      U32RoundTrip(bs, at, words[0]);
    } else {
      WordAt(bs, at + 4, words[1..], i - 1);
    }
  }

  function HeaderWords(h: Header): seq<U32> { [h.magic, h.version, h.entryCount, h.indexEntryCount, h.indexSize] }

  function HeaderBytes(h: Header): (bs: seq<Byte>)
    ensures |bs| == HEADER_SIZE
  {
    WordsBytes(HeaderWords(h)) + U64Bytes(h.contentId)
  }

  function EntrySize(wide: bool): nat { if wide then ENTRY_SIZE_64 else ENTRY_SIZE_32 }

  /** The size of `n` index entries, and of `n` descriptors. */
  function EntrySpan(wide: bool, n: nat): nat { if wide then 13 * n else 9 * n }

  function DescriptorSpan(n: nat): nat { 28 * n }

  function HashBytes(hash: U64, wide: bool): (bs: seq<Byte>)
    ensures |bs| == if wide then 8 else 4
  {
    if wide then U64Bytes(hash) else U32Bytes(Wrap32(hash))
  }

  function EntryBytes(e: IndexEntry, wide: bool): (bs: seq<Byte>)
    ensures |bs| == EntrySize(wide)
  {
    HashBytes(e.nameHash, wide) + (U32Bytes(e.descriptorIndex) + [if e.ignore then 1 else 0])
  }

  function DescriptorWords(d: Descriptor): seq<U32> {
    [d.mappingIndex, d.dataOffset, d.dataSize, d.debugOffset, d.debugSize, d.configOffset, d.configSize]
  }

  function DescriptorBytes(d: Descriptor): (bs: seq<Byte>)
    ensures |bs| == DESCRIPTOR_SIZE
  {
    WordsBytes(DescriptorWords(d))
  }

  /** A name record: its length, then its bytes. */
  function NameBytes(name: seq<Byte>): seq<Byte> { U32Bytes(Wrap32(|name|)) + name }

  function HeaderAt(bs: seq<Byte>, at: nat): Header
    requires at + HEADER_SIZE <= |bs|
  {
    Header(U32At(bs, at), U32At(bs, at + 4), U32At(bs, at + 8), U32At(bs, at + 12), U32At(bs, at + 16),
           U64At(bs, at + 20))
  }

  function EntryAt(bs: seq<Byte>, at: nat, wide: bool): IndexEntry
    requires at + EntrySize(wide) <= |bs|
  {
    if wide then IndexEntry(U64At(bs, at), U32At(bs, at + 8), bs[at + 12] != 0)
    else IndexEntry(U32At(bs, at), U32At(bs, at + 4), bs[at + 8] != 0)
  }

  function DescriptorAt(bs: seq<Byte>, at: nat): Descriptor
    requires at + DESCRIPTOR_SIZE <= |bs|
  {
    Descriptor(U32At(bs, at), U32At(bs, at + 4), U32At(bs, at + 8), U32At(bs, at + 12),
               U32At(bs, at + 16), U32At(bs, at + 20), U32At(bs, at + 24))
  }

  lemma HeaderRoundTrip(bs: seq<Byte>, at: nat, h: Header)
    requires HoldsAt(bs, at, HeaderBytes(h))
    ensures HeaderAt(bs, at) == h
  {
    var words := HeaderWords(h);
    HoldsSplit(bs, at, WordsBytes(words), U64Bytes(h.contentId));
    U64RoundTrip(bs, at + 20, h.contentId);
    WordAt(bs, at, words, 0);
    WordAt(bs, at, words, 1);
    WordAt(bs, at, words, 2);
    WordAt(bs, at, words, 3);
    WordAt(bs, at, words, 4);
  }

  /** What an index entry keeps: wide entries all of the hash, narrow ones its low 32 bits. */
  function Kept(e: IndexEntry, wide: bool): IndexEntry {
    if wide then e else IndexEntry(Wrap32(e.nameHash), e.descriptorIndex, e.ignore)
  }

  lemma EntryRoundTrip(bs: seq<Byte>, at: nat, e: IndexEntry, wide: bool)
    requires HoldsAt(bs, at, EntryBytes(e, wide))
    ensures EntryAt(bs, at, wide) == Kept(e, wide)
  {
    var hash, flag := HashBytes(e.nameHash, wide), [if e.ignore then 1 else 0];
    HoldsSplit(bs, at, hash, U32Bytes(e.descriptorIndex) + flag);
    HoldsSplit(bs, at + |hash|, U32Bytes(e.descriptorIndex), flag);
    U32RoundTrip(bs, at + |hash|, e.descriptorIndex);
    assert bs[at + |hash| + 4] == bs[at + |hash| + 4..at + |hash| + 5][0] == flag[0];
    if wide {
      U64RoundTrip(bs, at, e.nameHash);
    } else {
      U32RoundTrip(bs, at, Wrap32(e.nameHash));
    }
  }

  lemma DescriptorRoundTrip(bs: seq<Byte>, at: nat, d: Descriptor)
    requires HoldsAt(bs, at, DescriptorBytes(d))
    ensures DescriptorAt(bs, at) == d
  {
    var words := DescriptorWords(d);
    WordAt(bs, at, words, 0);
    WordAt(bs, at, words, 1);
    WordAt(bs, at, words, 2);
    WordAt(bs, at, words, 3);
    WordAt(bs, at, words, 4);
    WordAt(bs, at, words, 5);
    WordAt(bs, at, words, 6);
  }

  lemma NameRoundTrip(bs: seq<Byte>, at: nat, name: seq<Byte>)
    requires |name| < 0x1_0000_0000 && HoldsAt(bs, at, NameBytes(name))
    ensures U32At(bs, at) == |name| && HoldsAt(bs, at + 4, name)
  {
    HoldsSplit(bs, at, U32Bytes(Wrap32(|name|)), name);
    U32RoundTrip(bs, at, Wrap32(|name|));
  }

  // ----- Tables -----

  function EntryRecords(entries: seq<IndexEntry>, wide: bool): (r: seq<seq<Byte>>)
    ensures |r| == |entries| && forall i :: 0 <= i < |r| ==> r[i] == EntryBytes(entries[i], wide)
  {
    seq(|entries|, i requires 0 <= i < |entries| => EntryBytes(entries[i], wide))
  }

  function DescriptorRecords(ds: seq<Descriptor>): (r: seq<seq<Byte>>)
    ensures |r| == |ds| && forall i :: 0 <= i < |r| ==> r[i] == DescriptorBytes(ds[i])
  {
    seq(|ds|, i requires 0 <= i < |ds| => DescriptorBytes(ds[i]))
  }

  function NameRecords(names: seq<seq<Byte>>): (r: seq<seq<Byte>>)
    ensures |r| == |names| && forall i :: 0 <= i < |r| ==> r[i] == NameBytes(names[i])
  {
    seq(|names|, i requires 0 <= i < |names| => NameBytes(names[i]))
  }

  function IndexBytes(entries: seq<IndexEntry>, wide: bool): seq<Byte> { Flatten(EntryRecords(entries, wide)) }

  function DescriptorTable(ds: seq<Descriptor>): seq<Byte> { Flatten(DescriptorRecords(ds)) }

  function NameTable(names: seq<seq<Byte>>): seq<Byte> { Flatten(NameRecords(names)) }

  lemma TableSizes(entries: seq<IndexEntry>, wide: bool, ds: seq<Descriptor>)
    ensures |IndexBytes(entries, wide)| == EntrySpan(wide, |entries|)
    ensures |DescriptorTable(ds)| == DescriptorSpan(|ds|)
  {
    FlattenUniform(EntryRecords(entries, wide), EntrySize(wide));
    FlattenUniform(DescriptorRecords(ds), DESCRIPTOR_SIZE);
  }

  /** Entry `i` of an index that lies at `at` in a file. */
  lemma IndexEntryAt(bs: seq<Byte>, at: nat, entries: seq<IndexEntry>, wide: bool, i: nat)
    requires i < |entries| && HoldsAt(bs, at, IndexBytes(entries, wide))
    ensures at + EntrySpan(wide, i) + EntrySize(wide) <= |bs|
    ensures EntryAt(bs, at + EntrySpan(wide, i), wide) == Kept(entries[i], wide)
  {
    var records := EntryRecords(entries, wide);
    UniformRecordAt(bs, at, records, EntrySize(wide), i);
    EntryRoundTrip(bs, at + EntrySpan(wide, i), entries[i], wide);
  }

  lemma DescriptorEntryAt(bs: seq<Byte>, at: nat, ds: seq<Descriptor>, i: nat)
    requires i < |ds| && HoldsAt(bs, at, DescriptorTable(ds))
    ensures at + DescriptorSpan(i) + DESCRIPTOR_SIZE <= |bs|
    ensures DescriptorAt(bs, at + DescriptorSpan(i)) == ds[i]
  {
    var records := DescriptorRecords(ds);
    UniformRecordAt(bs, at, records, DESCRIPTOR_SIZE, i);
    DescriptorRoundTrip(bs, at + DescriptorSpan(i), ds[i]);
  }

  /** Name `i`: its length and bytes, found where the records before it end. */
  lemma NameEntryAt(bs: seq<Byte>, at: nat, names: seq<seq<Byte>>, i: nat)
    requires i < |names| && |names[i]| < 0x1_0000_0000 && HoldsAt(bs, at, NameTable(names))
    ensures var cursor := at + |Flatten(NameRecords(names)[..i])|;
            && cursor + 4 <= |bs| && U32At(bs, cursor) == |names[i]|
            && HoldsAt(bs, cursor + 4, names[i])
  {
    var records := NameRecords(names);
    var off := |Flatten(records[..i])|;
    FlattenAt(records, i);
    HoldsWithin(bs, at, Flatten(records), off, records[i]);
    NameRoundTrip(bs, at + off, names[i]);
  }
}
