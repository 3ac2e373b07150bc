/** The native reader of the assembly store: parsing the payload, finding an entry by hash and name,
    caching by mapping slot, and handing out the (decompressed) bytes. The release build is modelled. */
module StoreReader {
  import opened Basics
  import opened StoreFormat
  import opened StoreRoundTrip
  import opened StoreWriter
  import DecompressProtocol

  type Cad = DecompressProtocol.Cad

  type Name = seq<Byte>

  const SLASH: Byte := 47
  const DOT: Byte := 46

  // ----- Names -----

  /** `find_last_of`; None is `npos`. */
  function FindLast(s: Name, c: Byte): (r: Option<nat>)
    ensures r.Some? ==> r.value < |s| && s[r.value] == c && forall k :: r.value < k < |s| ==> s[k] != c
    ensures r == None ==> c !in s
  {
    if s == [] then None
    else if s[|s| - 1] == c then Some(|s| - 1)
    else FindLast(s[..|s| - 1], c)
  }

  /** The stored name with its final extension removed, when it has one. */
  function WithoutExtension(stored: Name): Option<Name> {
    var slash, dot := FindLast(stored, SLASH), FindLast(stored, DOT);
    var nameStart := if slash == None then 0 else slash.value + 1;
    if dot.Some? && dot.value > nameStart then Some(stored[..dot.value]) else None
  }

  /** `stem`, and behind a dot an extension without dots and directories; the stem's last part is not empty. */
  predicate HasStem(stored: Name, stem: Name) {
    && stem != [] && stem[|stem| - 1] != SLASH && |stem| < |stored| && stored[..|stem|] == stem
    && stored[|stem|] == DOT && DOT !in stored[|stem| + 1..] && SLASH !in stored[|stem| + 1..]
  }

  /** What is removed is exactly the last extension; a name that only begins with a dot has none. */
  lemma StemExactly(stored: Name, stem: Name)
    ensures WithoutExtension(stored) == Some(stem) <==> HasStem(stored, stem)
  {
    var slash, dot := FindLast(stored, SLASH), FindLast(stored, DOT);
    if HasStem(stored, stem) {
      var at := |stem|;
      assert forall k :: at < k < |stored| ==> stored[k] == stored[at + 1..][k - at - 1];
      assert dot == Some(at);
      assert stored[at - 1] == stem[at - 1];
      assert slash.Some? ==> slash.value < at - 1;
    }
    if WithoutExtension(stored) == Some(stem) {
      var at := dot.value;
      assert at > 0 && stem[at - 1] == stored[at - 1];
    }
  }

  predicate NameMatches(requested: Name, stored: Name) {
    requested == stored || WithoutExtension(stored) == Some(requested)
  }

  // ----- Finding an entry -----

  /** The decoded tables of a configured store. */
  datatype View = View(entries: seq<IndexEntry>, descriptors: seq<Descriptor>, names: seq<Name>)

  predicate EntryMatches(v: View, name: Name, hash: U32, i: nat)
    requires i < |v.entries|
  {
    var e := v.entries[i];
    && e.nameHash == hash
    && e.descriptorIndex < |v.descriptors| == |v.names|
    && NameMatches(name, v.names[e.descriptorIndex])
  }

  /** The reference: a scan of the whole index from `from` on for the first entry that matches. */
  function Scan(v: View, name: Name, hash: U32, from: nat): (r: Option<nat>)
    requires from <= |v.entries|
    ensures r.Some? ==> from <= r.value < |v.entries| && EntryMatches(v, name, hash, r.value)
    ensures r.Some? ==> forall i :: from <= i < r.value ==> !EntryMatches(v, name, hash, i)
    ensures r == None ==> forall i :: from <= i < |v.entries| ==> !EntryMatches(v, name, hash, i)
    decreases |v.entries| - from
  {
    if from == |v.entries| then None
    else if EntryMatches(v, name, hash, from) then Some(from)
    else Scan(v, name, hash, from + 1)
  }

  /** `Search::lower_bound`, by its standard contract: the first entry whose hash is not below `hash`. */
  function LowerBound(entries: seq<IndexEntry>, hash: U32, from: nat): (r: nat)
    requires from <= |entries|
    ensures from <= r <= |entries|
    ensures forall i :: from <= i < r ==> entries[i].nameHash < hash
    ensures r < |entries| ==> hash <= entries[r].nameHash
    decreases |entries| - from
  {
    if from == |entries| || hash <= entries[from].nameHash then from else LowerBound(entries, hash, from + 1)
  }

  lemma {:induction false} ScanSkips(v: View, name: Name, hash: U32, from: nat, to: nat)
    requires from <= to <= |v.entries|
    requires forall i :: from <= i < to ==> !EntryMatches(v, name, hash, i)
    ensures Scan(v, name, hash, from) == Scan(v, name, hash, to)
    decreases |v.entries| - from
  {
    if from < to {
      ScanSkips(v, name, hash, from + 1, to);
    }
  }

  /** Lower bound and a walk along the run of equal hashes find, in a sorted index with arbitrary
      collisions, exactly the entry a scan of the whole index finds first, and nothing exactly when it
      finds nothing. */
  method FindEntry(v: View, name: Name, hash: U32) returns (r: Option<nat>)
    requires |v.descriptors| == |v.names|
    ensures Sorted(v.entries) ==> r == Scan(v, name, hash, 0)
    ensures r.Some? ==> r.value < |v.entries| && EntryMatches(v, name, hash, r.value)
  {
    hide NameMatches;
    var idx := LowerBound(v.entries, hash, 0);
    ScanSkips(v, name, hash, 0, idx);
    while idx < |v.entries| && v.entries[idx].nameHash == hash
      invariant idx <= |v.entries|
      invariant forall i :: 0 <= i < idx ==> v.entries[i].nameHash <= hash
      invariant idx < |v.entries| && Sorted(v.entries) ==> hash <= v.entries[idx].nameHash
      invariant Scan(v, name, hash, 0) == Scan(v, name, hash, idx)
    {
      var entry := v.entries[idx];
      if entry.descriptorIndex < |v.descriptors| && NameMatches(name, v.names[entry.descriptorIndex]) {
        return Some(idx);
      }
      idx := idx + 1;
    }
    if Sorted(v.entries) {
      ScanSkips(v, name, hash, idx, |v.entries|);
    }
    r := None;
  }

  // ----- Configuring -----

  datatype ConfigureResult = Configured(view: View) | ConfigureAborted | ConfigureOverrun

  /** One turn of the name-cursor loop: a length, then that many bytes; None past the payload's end. */
  function NameAt(bs: seq<Byte>, cursor: nat): Option<Name> {
    if cursor + 4 > |bs| || cursor + 4 + U32At(bs, cursor) > |bs| then None
    else Some(bs[cursor + 4..cursor + 4 + U32At(bs, cursor)])
  }

  /** `count` length-prefixed names from `cursor` on. */
  function NamesAt(bs: seq<Byte>, cursor: nat, count: nat): (r: Option<seq<Name>>)
    ensures r.Some? ==> |r.value| == count
    decreases count
  {
    if count == 0 then Some([])
    else
      var name := NameAt(bs, cursor);
      if name == None then None
      else
        var rest := NamesAt(bs, cursor + 4 + |name.value|, count - 1);
        if rest == None then None else Some([name.value] + rest.value)
  }

  /** The name-cursor loop. */
  method ReadNames(bs: seq<Byte>, at: nat, count: nat) returns (r: Option<seq<Name>>)
    ensures r == NamesAt(bs, at, count)
  {
    hide NameAt, U32At;
    var names: seq<Name> := [];
    var cursor: nat := at;
    ghost var all := NamesAt(bs, at, count);
    assert all.Some? ==> names + all.value == all.value;
    for i := 0 to count
      invariant var rest := NamesAt(bs, cursor, count - i);
                all == if rest == None then None else Some(names + rest.value)
    {
      var name := NameAt(bs, cursor);
      if name == None {
        return None;
      }
      ghost var rest := NamesAt(bs, cursor + 4 + |name.value|, count - i - 1);
      assert rest.Some? ==> names + ([name.value] + rest.value) == names + [name.value] + rest.value;
      names := names + [name.value];
      cursor := cursor + 4 + |name.value|;
    }
    assert names + [] == names;
    r := Some(names);
  }

  /** The parsed payload. The reader itself does not check the payload's length; reading past its end is
      the outcome ConfigureOverrun here. */
  function Configure(bs: seq<Byte>, formatVersion: U32): ConfigureResult {
    if |bs| < HEADER_SIZE then ConfigureOverrun
    else
      var h := HeaderAt(bs, 0);
      if h.magic != ASSEMBLY_STORE_MAGIC || h.version != formatVersion then ConfigureAborted
      else
        var descriptorsAt := HEADER_SIZE + h.indexSize;
        var namesAt := descriptorsAt + DescriptorSpan(h.entryCount);
        if HEADER_SIZE + EntrySpan(false, h.indexEntryCount) > |bs| || namesAt > |bs| then ConfigureOverrun
        else
          var names := NamesAt(bs, namesAt, h.entryCount);
          if names == None then ConfigureOverrun
          else Configured(View(EntriesAt(bs, HEADER_SIZE, false, h.indexEntryCount),
                               DescriptorsAt(bs, descriptorsAt, h.entryCount), names.value))
  }

  function CursorAt(at: nat, names: seq<Name>, i: nat): nat
    requires i <= |names|
  {
    if i == 0 then at else CursorAt(at, names, i - 1) + 4 + |names[i - 1]|
  }

  lemma {:induction false} CursorIsOffset(at: nat, names: seq<Name>, i: nat)
    requires i <= |names|
    ensures CursorAt(at, names, i) == at + |Flatten(NameRecords(names)[..i])|
  {
    if i > 0 {
      CursorIsOffset(at, names, i - 1);
      FlattenStep(NameRecords(names), i - 1);
    }
  }

  /** Name `k` is read where the names before it end. */
  predicate NameLies(bs: seq<Byte>, at: nat, names: seq<Name>, k: nat)
    requires k < |names|
  {
    NameAt(bs, CursorAt(at, names, k)) == Some(names[k])
  }

  lemma {:induction false} NamesReadBack(bs: seq<Byte>, at: nat, names: seq<Name>, i: nat)
    requires i <= |names|
    requires forall k :: 0 <= k < |names| ==> NameLies(bs, at, names, k)
    ensures NamesAt(bs, CursorAt(at, names, i), |names| - i) == Some(names[i..])
    decreases |names| - i
  {
    if i < |names| {
      assert NameLies(bs, at, names, i);
      assert CursorAt(at, names, i + 1) == CursorAt(at, names, i) + 4 + |names[i]|;
      NamesReadBack(bs, at, names, i + 1);
      assert names[i..] == [names[i]] + names[i + 1..];
    }
  }

  /** The names of a store read back through the cursor loop. */
  lemma NamesDecode(bs: seq<Byte>, at: nat, names: seq<Name>)
    requires HoldsAt(bs, at, NameTable(names))
    requires forall k :: 0 <= k < |names| ==> |names[k]| < 0x1_0000_0000
    ensures NamesAt(bs, at, |names|) == Some(names)
  {
    forall k | 0 <= k < |names| ensures NameLies(bs, at, names, k) {
      NameEntryAt(bs, at, names, k);
      CursorIsOffset(at, names, k);
    }
    NamesReadBack(bs, at, names, 0);
    assert names[0..] == names;
  }

  /** A consistent narrow store of the right version configures to exactly its tables. */
  lemma ConfigureReadsBack(bs: seq<Byte>, p: Parts)
    requires Decodes(bs, p) && NamesAt(bs, NamesStart(p), |p.names|) == Some(p.names)
    requires Consistent(p) && !p.wide && p.header.magic == ASSEMBLY_STORE_MAGIC
    ensures Configure(bs, p.header.version) == Configured(View(p.entries, p.descriptors, p.names))
  {
    hide U32At, U64At, NamesAt, EntryAt, DescriptorAt, NameTable, EntryBytes;
  }

  // ----- Opening -----

  /** `AssemblyStoreSingleAssemblyRuntimeData`: empty until the first open through this mapping index. */
  datatype Slot = Empty | Filled(image: nat, descriptor: nat, debugInfo: Option<nat>)

  datatype OpenResult =
    | NotFound
    | Ignored
    | Loaded(bytes: seq<Byte>)
    | Aborted   // the application is aborted
    | Overrun   // a read outside the payload, the slots, or the buffer

  /** What opening changes: the mapping slots, the compressed descriptors, the shared buffer. */
  datatype Runtime = Runtime(slots: seq<Slot>, cads: seq<Cad>, buffer: seq<Byte>)

  type Decompressor = seq<Byte> -> Option<seq<Byte>>

  const COMPRESSED_HEADER_SIZE: nat := 12

  /** The compressed branch of `get_assembly_data` with the lock free: check, decompress if not loaded,
      hand out the buffer. */
  function GetCompressed(payload: seq<Byte>, zstd: Decompressor, image: nat, dataSize: U32,
                         rt: Runtime): (OpenResult, Runtime)
  {
    if image + COMPRESSED_HEADER_SIZE > |payload| then (Overrun, rt)
    else
      var d, length := U32At(payload, image + 4), U32At(payload, image + 8);
      if d >= |rt.cads| then (Aborted, rt)
      else
        var cad := rt.cads[d];
        if cad.offset >= |rt.buffer| || cad.size > |rt.buffer| - cad.offset then (Aborted, rt)
        else if cad.loaded then (Loaded(rt.buffer[cad.offset..cad.offset + cad.size]), rt)
        else if length > cad.size then (Aborted, rt)
        else if dataSize < COMPRESSED_HEADER_SIZE || image + dataSize > |payload| then (Overrun, rt)
        else
          var output := zstd(payload[image + COMPRESSED_HEADER_SIZE..image + dataSize]);
          if output == None || |output.value| != length then (Aborted, rt)
          else
            (Loaded(output.value),
             Runtime(rt.slots, rt.cads[d := cad.(size := length, loaded := true)],
                     rt.buffer[..cad.offset] + output.value + rt.buffer[cad.offset + length..]))
  }

  /** `get_assembly_data`: a copy of an uncompressed image, or the decompressed one. */
  function GetAssemblyData(payload: seq<Byte>, zstd: Decompressor, image: nat, dataSize: U32,
                           rt: Runtime): (OpenResult, Runtime)
  {
    if image + 4 > |payload| then (Overrun, rt)
    else if U32At(payload, image) == COMPRESSED_DATA_MAGIC then GetCompressed(payload, zstd, image, dataSize, rt)
    else if image + dataSize > |payload| then (Overrun, rt)
    else (Loaded(payload[image..image + dataSize]), rt)
  }

  function FillSlot(v: View, d: nat, slot: Slot): Slot
    requires d < |v.descriptors|
  {
    var desc := v.descriptors[d];
    if slot.Filled? then slot
    else Filled(desc.dataOffset, d, if desc.debugOffset != 0 then Some(desc.debugOffset) else None)
  }

  /** `open_assembly` once the index entry is known. */
  function OpenEntry(payload: seq<Byte>, v: View, zstd: Decompressor, e: IndexEntry, rt: Runtime): (OpenResult, Runtime)
  {
    if e.ignore then (Ignored, rt)
    else if e.descriptorIndex >= |v.descriptors| then (Aborted, rt)
    else
      var m := v.descriptors[e.descriptorIndex].mappingIndex;
      if m >= |rt.slots| then (Overrun, rt)
      else
        var slot := FillSlot(v, e.descriptorIndex, rt.slots[m]);
        var rt1 := Runtime(rt.slots[m := slot], rt.cads, rt.buffer);
        if slot.descriptor >= |v.descriptors| then (Overrun, rt1)
        else GetAssemblyData(payload, zstd, slot.image, v.descriptors[slot.descriptor].dataSize, rt1)
  }

  function Open(payload: seq<Byte>, v: View, zstd: Decompressor, crc32: Name -> U32, name: Name,
                rt: Runtime): (OpenResult, Runtime)
  {
    var found := Scan(v, name, crc32(name), 0);
    if found == None then (NotFound, rt) else OpenEntry(payload, v, zstd, v.entries[found.value], rt)
  }

  /** The store as the process holds it. */
  class AssemblyStore {
    const crc32: Name -> U32
    const zstd: Decompressor
    const formatVersion: U32

    var payload: seq<Byte>
    var view: View
    const slots: array<Slot>
    const cads: array<Cad>
    const buffer: array<Byte>

    ghost function State(): Runtime
      reads slots, cads, buffer
    {
      Runtime(slots[..], cads[..], buffer[..])
    }

    /** One name for each descriptor, and three separate arrays. */
    ghost predicate Valid()
      reads this
    {
      && |view.descriptors| == |view.names|
      && buffer as object != cads as object && slots as object != cads as object && slots as object != buffer as object
    }

    constructor (crc32: Name -> U32, zstd: Decompressor, formatVersion: U32, slotCount: nat, cads: array<Cad>,
                 bufferSize: nat)
      ensures this.crc32 == crc32 && this.zstd == zstd && this.formatVersion == formatVersion
      ensures view == View([], [], []) && payload == []
      ensures this.cads == cads && fresh(slots) && fresh(buffer)
      ensures slots.Length == slotCount && (forall i :: 0 <= i < slotCount ==> slots[i] == Empty)
      ensures buffer.Length == bufferSize && Valid()
    {
      this.crc32, this.zstd, this.formatVersion := crc32, zstd, formatVersion;
      payload, view := [], View([], [], []);
      slots := new Slot[slotCount](_ => Empty);
      this.cads := cads;
      buffer := new Byte[bufferSize](_ => 0);
    }

    /** `configure_from_payload` */
    method ConfigureFromPayload(bs: seq<Byte>) returns (r: ConfigureResult)
      requires Valid()
      modifies this
      ensures r == Configure(bs, formatVersion)
      ensures Valid() && if r.Configured? then payload == bs && view == r.view
              else payload == old(payload) && view == old(view)
    {
      hide U32At, U64At, EntryAt, DescriptorAt;
      if |bs| < HEADER_SIZE {
        return ConfigureOverrun;
      }
      var h := HeaderAt(bs, 0);
      if h.magic != ASSEMBLY_STORE_MAGIC || h.version != formatVersion {
        return ConfigureAborted;
      }
      var descriptorsAt := HEADER_SIZE + h.indexSize;
      var namesAt := descriptorsAt + DescriptorSpan(h.entryCount);
      if HEADER_SIZE + EntrySpan(false, h.indexEntryCount) > |bs| || namesAt > |bs| {
        return ConfigureOverrun;
      }
      var names := ReadNames(bs, namesAt, h.entryCount);
      if names == None {
        return ConfigureOverrun;
      }
      payload := bs;
      view := View(EntriesAt(bs, HEADER_SIZE, false, h.indexEntryCount), DescriptorsAt(bs, descriptorsAt, h.entryCount),
                   names.value);
      r := Configured(view);
    }

    /** The compressed branch of `get_assembly_data`, alone under the lock. */
    method GetCompressedData(image: nat, dataSize: U32) returns (r: OpenResult)
      requires Valid()
      modifies cads, buffer
      ensures (r, State()) == GetCompressed(payload, zstd, image, dataSize, old(State()))
    {
      if image + COMPRESSED_HEADER_SIZE > |payload| {
        return Overrun;
      }
      var d, length := U32At(payload, image + 4), U32At(payload, image + 8);
      if d >= cads.Length {
        return Aborted;
      }
      var cad := cads[d];
      if cad.offset >= buffer.Length || cad.size > buffer.Length - cad.offset {
        return Aborted;
      }
      if !cad.loaded {
        if length > cad.size {
          return Aborted;
        }
        if dataSize < COMPRESSED_HEADER_SIZE || image + dataSize > |payload| {
          return Overrun;
        }
        var output := zstd(payload[image + COMPRESSED_HEADER_SIZE..image + dataSize]);
        if output == None || |output.value| != length {
          return Aborted;
        }
        CopyIntoBuffer(cad.offset, output.value);
        cads[d] := cad.(size := length, loaded := true);
        assert buffer[cad.offset..cad.offset + length] == output.value;
      }
      cad := cads[d];
      r := Loaded(buffer[cad.offset..cad.offset + cad.size]);
    }

    method CopyIntoBuffer(at: nat, bytes: seq<Byte>)
      requires at + |bytes| <= buffer.Length
      modifies buffer
      ensures buffer[..] == old(buffer[..at]) + bytes + old(buffer[at + |bytes|..])
    {
      for k := 0 to |bytes|
        invariant buffer[..at] == old(buffer[..at])
        invariant buffer[at..at + k] == bytes[..k]
        invariant buffer[at + k..] == old(buffer[at + k..])
      {
        buffer[at + k] := bytes[k];
        assert buffer[at..at + k + 1] == buffer[at..at + k] + [bytes[k]];
      }
      assert buffer[..] == buffer[..at] + buffer[at..at + |bytes|] + buffer[at + |bytes|..];
    }

    /** `get_assembly_data` */
    method GetData(image: nat, dataSize: U32) returns (r: OpenResult)
      requires Valid()
      modifies cads, buffer
      ensures (r, State()) == GetAssemblyData(payload, zstd, image, dataSize, old(State()))
    {
      if image + 4 > |payload| {
        return Overrun;
      }
      if U32At(payload, image) == COMPRESSED_DATA_MAGIC {
        r := GetCompressedData(image, dataSize);
      } else if image + dataSize > |payload| {
        r := Overrun;
      } else {
        r := Loaded(payload[image..image + dataSize]);
      }
    }

    /** `open_assembly` after the search, for the entry found. */
    method OpenFound(entry: IndexEntry) returns (r: OpenResult)
      requires Valid()
      modifies slots, cads, buffer
      ensures (r, State()) == OpenEntry(payload, view, zstd, entry, old(State()))
    {
      if entry.ignore {
        return Ignored;
      }
      if entry.descriptorIndex >= |view.descriptors| {
        return Aborted;
      }
      var m := view.descriptors[entry.descriptorIndex].mappingIndex;
      if m >= slots.Length {
        return Overrun;
      }
      slots[m] := FillSlot(view, entry.descriptorIndex, slots[m]);
      var slot := slots[m];
      if slot.descriptor >= |view.descriptors| {
        return Overrun;
      }
      r := GetData(slot.image, view.descriptors[slot.descriptor].dataSize);
    }

    /** `open_assembly`: on a sorted index, what opening means by the scan. */
    method OpenAssembly(name: Name) returns (r: OpenResult)
      requires Valid()
      modifies slots, cads, buffer
      ensures Sorted(view.entries) ==> (r, State()) == Open(payload, view, zstd, crc32, name, old(State()))
    {
      var found := FindEntry(view, name, crc32(name));
      if found == None {
        return NotFound;
      }
      r := OpenFound(view.entries[found.value]);
    }
  }
}
