/** The assembly store builder: which entries a store holds. Every added assembly comes, for CoreCLR,
    with an ignored entry for the native image that the runtime would look for first. */
module StoreBuilder {
  import opened Basics
  import opened StoreWriter
  import opened StoreReader
  import opened StoreEndToEnd

  /** The part of a task item that the builder looks at. */
  datatype Item = Item(spec: Name, arch: Arch)

  const DLL: Name := [46, 100, 108, 108]                       // ".dll"
  const NI: Name := [46, 110, 105]                             // ".ni"
  const NI_DLL: Name := [46, 110, 105, 46, 100, 108, 108]      // ".ni.dll"
  const DLL_CONFIG: Name := [100, 108, 108, 46, 99, 111, 110, 102, 105, 103]
  const PDB: Name := [112, 100, 98]

  // ----- Paths -----

  /** `Path.GetFileName` */
  function GetFileName(path: Name): Name {
    var slash := FindLast(path, SLASH);
    if slash == None then path else path[slash.value + 1..]
  }

  /** `Path.ChangeExtension`: the last dot counts when no separator follows it. */
  function ChangeExtension(path: Name, extension: Name): Name {
    var slash, dot := FindLast(path, SLASH), FindLast(path, DOT);
    var stem := if dot == None || (slash.Some? && slash.value > dot.value) then path else path[..dot.value];
    if path == [] then []
    else if extension != [] && extension[0] == DOT then stem + extension
    else stem + [DOT] + extension
  }

  /** Empty, or ending in a separator. */
  predicate IsDir(dir: Name) { dir == [] || dir[|dir| - 1] == SLASH }

  /** A file name without directory and without its extension. */
  predicate IsBase(base: Name) { base != [] && SLASH !in base }

  lemma {:induction false} FindLastIs(s: Name, c: Byte, at: nat)
    requires at < |s| && s[at] == c && forall k :: at < k < |s| ==> s[k] != c
    ensures FindLast(s, c) == Some(at)
  {
  }

  /** The file name is what follows the directory. */
  lemma {:induction false} FileNameFollows(dir: Name, file: Name)
    requires IsDir(dir) && SLASH !in file
    ensures GetFileName(dir + file) == file
  {
    var path := dir + file;
    if dir != [] {
      forall k | |dir| - 1 < k < |path| ensures path[k] != SLASH {
        assert path[k] == file[k - |dir|];
      }
      FindLastIs(path, SLASH, |dir| - 1);
    } else {
      assert path == file;
    }
  }

  /** Changing the extension of an assembly's path replaces exactly ".dll", dots in its directory and base
      notwithstanding. */
  lemma {:induction false} ExtensionChanged(dir: Name, base: Name, extension: Name)
    requires IsDir(dir) && IsBase(base)
    ensures ChangeExtension(dir + base + DLL, extension) ==
            dir + base + (if extension != [] && extension[0] == DOT then extension else [DOT] + extension)
  {
    var path, at := dir + base + DLL, |dir + base|;
    assert path[at] == DOT && path[at + 1] != DOT && path[at + 2] != DOT && path[at + 3] != DOT;
    FindLastIs(path, DOT, at);
    var slash := FindLast(path, SLASH);
    assert slash.Some? ==> slash.value < at;
    assert path[..at] == dir + base;
    assert dir + base + ([DOT] + extension) == dir + base + [DOT] + extension;
  }

  /** The ignored name that the builder derives from an assembly's path: its base with ".ni.dll". */
  lemma {:induction false} NativeImageFileName(dir: Name, base: Name)
    requires IsDir(dir) && IsBase(base)
    ensures GetFileName(ChangeExtension(dir + base + DLL, NI_DLL)) == base + NI_DLL
  {
    ExtensionChanged(dir, base, NI_DLL);
    assert dir + base + NI_DLL == dir + (base + NI_DLL);
    FileNameFollows(dir, base + NI_DLL);
  }

  // ----- The builder -----

  function NoExtension(name: Name): Name {
    var stem := WithoutExtension(name);
    if stem.Some? then stem.value else name
  }

  type Files = map<Name, seq<Byte>>

  function Lookup(files: Files, path: Name): Option<seq<Byte>> { if path in files then Some(files[path]) else None }

  /** The assembly's own entry. */
  function StoredInfo(files: Files, storedName: (Name, Item) -> Name, sourcePath: Name, item: Item,
                      symbols: bool): AssemblyInfo
  {
    var name := storedName(sourcePath, item);
    AssemblyInfo(item.arch, name, NoExtension(name), false, Lookup(files, sourcePath),
                 if symbols then Lookup(files, ChangeExtension(item.spec, PDB)) else None,
                 Lookup(files, ChangeExtension(item.spec, DLL_CONFIG)))
  }

  function IgnoredName(storedName: (Name, Item) -> Name, item: Item): Name {
    storedName(GetFileName(ChangeExtension(item.spec, NI_DLL)), item)
  }

  /** The entry of the native image that never exists. */
  function IgnoredInfo(storedName: (Name, Item) -> Name, item: Item): AssemblyInfo {
    var name := IgnoredName(storedName, item);
    AssemblyInfo(item.arch, name, NoExtension(name), true, None, None, None)
  }

  type Assemblies = map<Arch, seq<AssemblyInfo>>

  function ListOf(assemblies: Assemblies, arch: Arch): seq<AssemblyInfo> {
    if arch in assemblies then assemblies[arch] else []
  }

  /** One call of `AddAssembly`. */
  datatype Call = Call(sourcePath: Name, item: Item, symbols: bool)

  function Added(files: Files, storedName: (Name, Item) -> Name, coreClr: bool, call: Call): seq<AssemblyInfo> {
    [StoredInfo(files, storedName, call.sourcePath, call.item, call.symbols)] +
    if coreClr then [IgnoredInfo(storedName, call.item)] else []
  }

  /** How stored names are made from a path and an item is not part of this model: any function will do. */
  class AssemblyStoreBuilder {
    const coreClr: bool
    const files: Files
    const storedName: (Name, Item) -> Name
    var assemblies: Assemblies

    constructor (coreClr: bool, files: Files, storedName: (Name, Item) -> Name)
      ensures this.coreClr == coreClr && this.files == files && this.storedName == storedName && assemblies == map[]
    {
      this.coreClr, this.files, this.storedName, assemblies := coreClr, files, storedName, map[];
    }

    /** `AssemblyStoreGenerator.Add` */
    method Add(info: AssemblyInfo)
      modifies this
      ensures assemblies == old(assemblies)[info.arch := ListOf(old(assemblies), info.arch) + [info]]
    {
      if info.arch !in assemblies {
        assemblies := assemblies[info.arch := []];
      }
      assemblies := assemblies[info.arch := assemblies[info.arch] + [info]];
    }

    method AddAssembly(sourcePath: Name, item: Item, includeDebugSymbols: bool)
      modifies this
      ensures assemblies == old(assemblies)[item.arch := ListOf(old(assemblies), item.arch)
                + Added(files, storedName, coreClr, Call(sourcePath, item, includeDebugSymbols))]
    {
      var name := storedName(sourcePath, item);
      var info := AssemblyInfo(item.arch, name, NoExtension(name), false, Lookup(files, sourcePath), None, None);
      var config := ChangeExtension(item.spec, DLL_CONFIG);
      if config in files {
        info := info.(config := Some(files[config]));
      }
      if includeDebugSymbols {
        var symbols := ChangeExtension(item.spec, PDB);
        if symbols in files {
          info := info.(symbols := Some(files[symbols]));
        }
      }
      assert info == StoredInfo(files, storedName, sourcePath, item, includeDebugSymbols);
      ghost var list := ListOf(assemblies, item.arch);
      Add(info);
      ClrAddIgnoredNativeImageAssembly(item);
      assert coreClr ==> list + [info] + [IgnoredInfo(storedName, item)] ==
                         list + ([info] + [IgnoredInfo(storedName, item)]);
      assert !coreClr ==> list + [info] == list + ([info] + []);
    }

    method ClrAddIgnoredNativeImageAssembly(item: Item)
      modifies this
      ensures assemblies == if coreClr
              then old(assemblies)[item.arch := ListOf(old(assemblies), item.arch) + [IgnoredInfo(storedName, item)]]
                            else old(assemblies)
    {
      if !coreClr {
        return;
      }
      Add(IgnoredInfo(storedName, item));
    }
  }

  // ----- Runs of calls -----

  /** The lists after a run of calls. */
  function Run(files: Files, storedName: (Name, Item) -> Name, coreClr: bool, calls: seq<Call>): Assemblies {
    if calls == [] then map[]
    else
      var before, last := Run(files, storedName, coreClr, calls[..|calls| - 1]), calls[|calls| - 1];
      before[last.item.arch := ListOf(before, last.item.arch) + Added(files, storedName, coreClr, last)]
  }

  /** The calls for one architecture, in order. */
  function CallsFor(calls: seq<Call>, arch: Arch): (r: seq<Call>)
    ensures forall k :: 0 <= k < |r| ==> r[k].item.arch == arch
  {
    if calls == [] then []
    else
      var before, last := CallsFor(calls[..|calls| - 1], arch), calls[|calls| - 1];
      if last.item.arch == arch then before + [last] else before
  }

  /** For CoreCLR, entry 2k is the assembly of the k-th call for the architecture and entry 2k + 1 its
      ignored native image; other architectures' calls leave the list alone. */
  predicate ListIs(files: Files, storedName: (Name, Item) -> Name, calls: seq<Call>, list: seq<AssemblyInfo>) {
    && |list| == 2 * |calls|
    && forall k :: 0 <= k < |calls| ==>
         && list[2 * k] == StoredInfo(files, storedName, calls[k].sourcePath, calls[k].item, calls[k].symbols)
         && list[2 * k + 1] == IgnoredInfo(storedName, calls[k].item)
  }

  lemma {:induction false} RunLists(files: Files, storedName: (Name, Item) -> Name, calls: seq<Call>, arch: Arch)
    ensures ListIs(files, storedName, CallsFor(calls, arch), ListOf(Run(files, storedName, true, calls), arch))
    decreases |calls|
  {
    if calls != [] {
      var before, last := calls[..|calls| - 1], calls[|calls| - 1];
      RunLists(files, storedName, before, arch);
      if last.item.arch == arch {
        ListGrows(files, storedName, CallsFor(before, arch), ListOf(Run(files, storedName, true, before), arch), last);
      }
    }
  }

  lemma {:induction false} ListGrows(files: Files, storedName: (Name, Item) -> Name, calls: seq<Call>,
                                     list: seq<AssemblyInfo>, call: Call)
    requires ListIs(files, storedName, calls, list)
    ensures ListIs(files, storedName, calls + [call], list + Added(files, storedName, true, call))
  {
    var after := list + Added(files, storedName, true, call);
    forall k | 0 <= k < |calls| + 1
      ensures after[2 * k] ==
              StoredInfo(files, storedName, (calls + [call])[k].sourcePath, (calls + [call])[k].item,
                         (calls + [call])[k].symbols)
      ensures after[2 * k + 1] == IgnoredInfo(storedName, (calls + [call])[k].item)
    {
      if k < |calls| {
        assert (calls + [call])[k] == calls[k];
      }
    }
  }

  /** The builder's names are what the reader strips. */
  lemma BuiltWellNamed(files: Files, storedName: (Name, Item) -> Name, calls: seq<Call>, list: seq<AssemblyInfo>,
                       i: nat)
    requires ListIs(files, storedName, calls, list) && i < |list|
    ensures WellNamed(list[i])
  {
    assert i == 2 * (i / 2) || i == 2 * (i / 2) + 1;
    var call := calls[i / 2];
  }

  // ----- Ambiguity -----

  /** A stem with a file part: neither empty nor ending in a separator. */
  predicate IsStem(s: Name) { s != [] && s[|s| - 1] != SLASH }

  /** The k-th call stores `stems[k]`.dll and ignores `stems[k]`.ni.dll. */
  predicate StemsOf(list: seq<AssemblyInfo>, stems: seq<Name>) {
    && |list| == 2 * |stems|
    && forall k :: 0 <= k < |stems| ==>
         IsStem(stems[k]) && list[2 * k].name == stems[k] + DLL && list[2 * k + 1].name == stems[k] + NI_DLL
  }

  /** The reader strips exactly ".dll" from a stem's full name. */
  lemma {:induction false} StripsDll(stem: Name)
    requires IsStem(stem)
    ensures WithoutExtension(stem + DLL) == Some(stem)
  {
    var name := stem + DLL;
    assert name[|stem|] == DOT && name[|stem| + 1] != DOT && name[|stem| + 2] != DOT && name[|stem| + 3] != DOT;
    FindLastIs(name, DOT, |stem|);
    var slash := FindLast(name, SLASH);
    assert name[|stem| - 1] == stem[|stem| - 1];
    assert slash.Some? ==> slash.value < |stem| - 1;
    assert name[..|stem|] == stem;
  }

  function EntryIndex(k: nat, ignored: bool): nat { if ignored then 2 * k + 1 else 2 * k }

  /** The names that assembly `k` (or, `ignored`, its native image) answers to. */
  predicate AnswersTo(stem: Name, ignored: bool, q: Name) {
    if ignored then q == stem + NI_DLL || q == stem + NI else q == stem + DLL || q == stem
  }

  lemma {:induction false} MatchesAre(list: seq<AssemblyInfo>, stems: seq<Name>, k: nat, q: Name)
    requires StemsOf(list, stems) && k < |stems|
    ensures Matches(list, q, 2 * k) <==> AnswersTo(stems[k], false, q)
    ensures Matches(list, q, 2 * k + 1) <==> AnswersTo(stems[k], true, q)
  {
    StripsDll(stems[k]);
    assert stems[k] + NI_DLL == (stems[k] + NI) + DLL;
    StripsDll(stems[k] + NI);
  }

  /** Distinct stems, none of which is another with one of the generated endings. */
  predicate StemsApart(stems: seq<Name>) {
    && (forall i, j :: 0 <= i < j < |stems| ==> stems[i] != stems[j])
    && forall i, j :: 0 <= i < |stems| && 0 <= j < |stems| ==>
         stems[j] != stems[i] + DLL && stems[j] != stems[i] + NI && stems[j] != stems[i] + NI_DLL
  }

  /** Two entries that one name answers to have stems that clash. */
  lemma {:induction false} ClashNeedsStems(a: Name, aIgnored: bool, b: Name, bIgnored: bool, q: Name)
    requires AnswersTo(a, aIgnored, q) && AnswersTo(b, bIgnored, q)
    ensures a == b || a == b + DLL || a == b + NI || a == b + NI_DLL || b == a + DLL || b == a + NI || b == a + NI_DLL
    ensures a == b && aIgnored != bIgnored ==> false
  {
    SuffixSplit(q, a, if aIgnored then (if q == a + NI_DLL then NI_DLL else NI) else (if q == a + DLL then DLL else []),
                b, if bIgnored then (if q == b + NI_DLL then NI_DLL else NI) else (if q == b + DLL then DLL else []));
  }

  /** The two endings of one name: the shorter stem is a prefix of the longer. */
  lemma {:induction false} SuffixSplit(q: Name, a: Name, x: Name, b: Name, y: Name)
    requires q == a + x && q == b + y
    ensures |a| <= |b| ==> b == a + x[..|b| - |a|] && x[|b| - |a|..] == y
    ensures |b| <= |a| ==> a == b + y[..|a| - |b|] && y[|a| - |b|..] == x
  {
    assert a == q[..|a|] && b == q[..|b|] && x == q[|a|..] && y == q[|b|..];
    if |a| <= |b| {
      assert q[..|b|] == q[..|a|] + q[|a|..][..|b| - |a|];
      assert q[|a|..][|b| - |a|..] == q[|b|..];
    }
    if |b| <= |a| {
      assert q[..|a|] == q[..|b|] + q[|b|..][..|a| - |b|];
      assert q[|b|..][|a| - |b|..] == q[|a|..];
    }
  }

  lemma {:induction false} EntryAnswers(list: seq<AssemblyInfo>, stems: seq<Name>, i: nat, q: Name)
    requires StemsOf(list, stems) && i < |list|
    ensures Matches(list, q, i) <==> AnswersTo(stems[i / 2], i % 2 == 1, q)
  {
    MatchesAre(list, stems, i / 2, q);
  }

  /** No name is ambiguous exactly when the stems are apart. */
  lemma {:induction false} UnambiguousExactly(list: seq<AssemblyInfo>, stems: seq<Name>)
    requires StemsOf(list, stems)
    ensures (forall q: Name :: Unambiguous(list, q)) <==> StemsApart(stems)
  {
    if StemsApart(stems) {
      forall q: Name ensures Unambiguous(list, q) {
        forall i, j | 0 <= i < j < |list| ensures !(Matches(list, q, i) && Matches(list, q, j)) {
          EntryAnswers(list, stems, i, q);
          EntryAnswers(list, stems, j, q);
          if Matches(list, q, i) && Matches(list, q, j) {
            ClashNeedsStems(stems[i / 2], i % 2 == 1, stems[j / 2], j % 2 == 1, q);
          }
        }
      }
    } else {
      AmbiguousName(list, stems);
    }
  }

  lemma {:induction false} AmbiguousName(list: seq<AssemblyInfo>, stems: seq<Name>)
    requires StemsOf(list, stems) && !StemsApart(stems)
    ensures exists q: Name :: !Unambiguous(list, q)
  {
    if i, j :| 0 <= i < j < |stems| && stems[i] == stems[j] {
      MatchesAre(list, stems, i, stems[i]);
      MatchesAre(list, stems, j, stems[i]);
      assert !Unambiguous(list, stems[i]);
    } else {
      var i, j :| 0 <= i < |stems| && 0 <= j < |stems| &&
                  (stems[j] == stems[i] + DLL || stems[j] == stems[i] + NI || stems[j] == stems[i] + NI_DLL);
      var q := stems[j];
      MatchesAre(list, stems, i, q);
      MatchesAre(list, stems, j, q);
      var a := if q == stems[i] + DLL then 2 * i else 2 * i + 1;
      assert i != j;
      assert Matches(list, q, a) && Matches(list, q, 2 * j);
      assert !Unambiguous(list, q);
    }
  }

  lemma {:induction false} NamesApart(list: seq<AssemblyInfo>, stems: seq<Name>, q: Name)
    requires StemsOf(list, stems) && StemsApart(stems)
    ensures Unambiguous(list, q)
  {
    UnambiguousExactly(list, stems);
  }

  lemma {:induction false} RunFlags(files: Files, storedName: (Name, Item) -> Name, calls: seq<Call>, arch: Arch,
                                    k: nat)
    requires 2 * k + 1 < |ListOf(Run(files, storedName, true, calls), arch)|
    ensures var list := ListOf(Run(files, storedName, true, calls), arch);
            !list[2 * k].ignored && list[2 * k + 1].ignored
  {
    RunLists(files, storedName, calls, arch);
  }

  lemma {:induction false} EntryOpens(
      payload: seq<Byte>, zstd: Decompressor, hashes: Hashes, list: seq<AssemblyInfo>, stems: seq<Name>, v: View,
      rt: Runtime, i: nat, q: Name)
    requires StemsOf(list, stems) && StemsApart(stems) && i < |list| && Matches(list, q, i)
    requires Opened(payload, zstd, hashes, list, v) && RuntimeOk(zstd, list, v.descriptors, rt)
             && StoredOk(zstd, list[i])
    ensures GivesAnswer(payload, zstd, hashes.crc32, v, q, rt, list[i])
  {
    NamesApart(list, stems, q);
    OpenExact(payload, zstd, hashes, list, v, q, rt, i);
  }

  lemma {:induction false} StemsOpen(
      payload: seq<Byte>, zstd: Decompressor, hashes: Hashes, files: Files, storedName: (Name, Item) -> Name,
      calls: seq<Call>, list: seq<AssemblyInfo>, stems: seq<Name>, arch: Arch, v: View, rt: Runtime, k: nat,
      ignored: bool, q: Name)
    requires list == ListOf(Run(files, storedName, true, calls), arch)
    requires StemsOf(list, stems) && StemsApart(stems) && k < |stems| && AnswersTo(stems[k], ignored, q)
    requires Opened(payload, zstd, hashes, list, v) && RuntimeOk(zstd, list, v.descriptors, rt)
    requires StoredOk(zstd, list[EntryIndex(k, ignored)])
    ensures list[EntryIndex(k, ignored)].ignored == ignored
    ensures GivesAnswer(payload, zstd, hashes.crc32, v, q, rt, list[EntryIndex(k, ignored)])
  {
    RunFlags(files, storedName, calls, arch, k);
    MatchesAre(list, stems, k, q);
    EntryOpens(payload, zstd, hashes, list, stems, v, rt, EntryIndex(k, ignored), q);
  }

  // ----- From the calls -----

  /** All that is assumed of how stored names are made: the file name of the path, behind a directory that
      depends on the item alone (as that of a satellite assembly's culture). */
  ghost predicate NamedAfterFile(storedName: (Name, Item) -> Name, prefix: Item -> Name) {
    forall path: Name, item: Item :: storedName(path, item) == prefix(item) + GetFileName(path)
  }

  /** The call adds the assembly `base`.dll, whose item is in `dir`; its source may be anywhere. */
  predicate Adds(call: Call, dir: Name, base: Name) {
    && IsDir(dir) && IsBase(base)
    && call.item.spec == dir + base + DLL && GetFileName(call.sourcePath) == base + DLL
  }

  predicate AllAdd(calls: seq<Call>, dirs: seq<Name>, bases: seq<Name>) {
    && |dirs| == |bases| == |calls|
    && forall k :: 0 <= k < |calls| ==> Adds(calls[k], dirs[k], bases[k])
  }

  function Stems(prefix: Item -> Name, calls: seq<Call>, bases: seq<Name>): (r: seq<Name>)
    requires |bases| == |calls|
    ensures |r| == |calls| && forall k :: 0 <= k < |r| ==> r[k] == prefix(calls[k].item) + bases[k]
  {
    seq(|calls|, k requires 0 <= k < |calls| => prefix(calls[k].item) + bases[k])
  }

  lemma {:induction false} CallNames(files: Files, storedName: (Name, Item) -> Name, prefix: Item -> Name, call: Call,
                                     dir: Name, base: Name)
    requires NamedAfterFile(storedName, prefix) && Adds(call, dir, base)
    ensures StoredInfo(files, storedName, call.sourcePath, call.item, call.symbols).name ==
            prefix(call.item) + base + DLL
    ensures IgnoredInfo(storedName, call.item).name == prefix(call.item) + base + NI_DLL
    ensures IsStem(prefix(call.item) + base)
  {
    hide GetFileName, ChangeExtension;
    NativeImageFileName(dir, base);
    FileNameFollows([], base + NI_DLL);
    assert [] + (base + NI_DLL) == base + NI_DLL;
    var prefixed := prefix(call.item);
    assert prefixed + (base + DLL) == prefixed + base + DLL && prefixed + (base + NI_DLL) == prefixed + base + NI_DLL;
    assert base[|base| - 1] in base;
  }

  /** The names the builder generates: entry 2k is the k-th assembly's own, and entry 2k + 1 its native
      image's. */
  lemma {:induction false} BuiltStems(files: Files, storedName: (Name, Item) -> Name, prefix: Item -> Name,
                                      calls: seq<Call>, arch: Arch, dirs: seq<Name>, bases: seq<Name>)
    requires NamedAfterFile(storedName, prefix) && AllAdd(CallsFor(calls, arch), dirs, bases)
    ensures StemsOf(ListOf(Run(files, storedName, true, calls), arch), Stems(prefix, CallsFor(calls, arch), bases))
  {
    hide StoredInfo, IgnoredInfo, NamedAfterFile, Adds, IsStem;
    var mine, list := CallsFor(calls, arch), ListOf(Run(files, storedName, true, calls), arch);
    var stems := Stems(prefix, mine, bases);
    RunLists(files, storedName, calls, arch);
    forall k | 0 <= k < |stems|
      ensures IsStem(stems[k]) && list[2 * k].name == stems[k] + DLL && list[2 * k + 1].name == stems[k] + NI_DLL
    {
      CallNames(files, storedName, prefix, mine[k], dirs[k], bases[k]);
    }
  }

  /** In a store built for CoreCLR by any calls, when the assemblies' stems are apart: every generated
      native-image name, with and without its extension, opens to null and touches nothing, and every
      assembly's own names open to its bytes. */
  lemma {:induction false} BuiltStoreOpens(
      payload: seq<Byte>, zstd: Decompressor, hashes: Hashes, files: Files, storedName: (Name, Item) -> Name,
      prefix: Item -> Name, calls: seq<Call>, dirs: seq<Name>, bases: seq<Name>, list: seq<AssemblyInfo>,
      stems: seq<Name>, arch: Arch, v: View, rt: Runtime, k: nat, ignored: bool, q: Name)
    requires NamedAfterFile(storedName, prefix) && AllAdd(CallsFor(calls, arch), dirs, bases)
    requires list == ListOf(Run(files, storedName, true, calls), arch)
             && stems == Stems(prefix, CallsFor(calls, arch), bases)
    requires StemsApart(stems) && k < |stems| && AnswersTo(stems[k], ignored, q)
    requires Opened(payload, zstd, hashes, list, v) && RuntimeOk(zstd, list, v.descriptors, rt)
    ensures |list| == 2 * |stems| && StoredOk(zstd, list[EntryIndex(k, ignored)])
    ensures list[EntryIndex(k, ignored)].ignored == ignored
    ensures GivesAnswer(payload, zstd, hashes.crc32, v, q, rt, list[EntryIndex(k, ignored)])
  {
    hide RuntimeOk, GivesAnswer, StemsApart, AnswersTo, NamedAfterFile, AllAdd, IsSorting, NamesOk, StoredOk, IsStem;
    BuiltStems(files, storedName, prefix, calls, arch, dirs, bases);
    AllStoredOk(zstd, list, EntryIndex(k, ignored));
    StemsOpen(payload, zstd, hashes, files, storedName, calls, list, stems, arch, v, rt, k, ignored, q);
  }

  lemma {:induction false} AllStoredOk(zstd: Decompressor, infos: seq<AssemblyInfo>, i: nat)
    requires ImagesOk(zstd, infos) && i < |infos|
    ensures StoredOk(zstd, infos[i])
  {
  }

  // ----- Which files -----

  const CONFIG: Name := [46, 99, 111, 110, 102, 105, 103]      // ".config"
  const DOT_PDB: Name := [46, 112, 100, 98]                    // ".pdb"

  /** An entry made for the assembly at `sourcePath`, whose item is dir/base.dll: the image is read from the source
      path, but configuration and symbols are looked for beside the item, as base.dll.config and, when asked for,
      base.pdb. */
  predicate ReadFrom(files: Files, info: AssemblyInfo, call: Call, dir: Name, base: Name) {
    && !info.ignored
    && info.source == Lookup(files, call.sourcePath)
    && info.config == Lookup(files, dir + base + DLL + CONFIG)
    && info.symbols == if call.symbols then Lookup(files, dir + base + DOT_PDB) else None
  }

  lemma {:induction false} EntryReadFrom(files: Files, storedName: (Name, Item) -> Name, call: Call, dir: Name,
                                         base: Name)
    requires Adds(call, dir, base)
    ensures ReadFrom(files, StoredInfo(files, storedName, call.sourcePath, call.item, call.symbols), call, dir, base)
  {
    hide ChangeExtension, GetFileName, NoExtension;
    ConfigPath(dir, base);
    SymbolsPath(dir, base);
  }

  lemma {:induction false} ConfigPath(dir: Name, base: Name)
    requires IsDir(dir) && IsBase(base)
    ensures ChangeExtension(dir + base + DLL, DLL_CONFIG) == dir + base + DLL + CONFIG
  {
    hide ChangeExtension, IsDir, IsBase;
    ExtensionChanged(dir, base, DLL_CONFIG);
    assert [DOT] + DLL_CONFIG == DLL + CONFIG;
    Joined(dir + base, DLL, CONFIG);
  }

  lemma {:induction false} SymbolsPath(dir: Name, base: Name)
    requires IsDir(dir) && IsBase(base)
    ensures ChangeExtension(dir + base + DLL, PDB) == dir + base + DOT_PDB
  {
    hide ChangeExtension, IsDir, IsBase;
    ExtensionChanged(dir, base, PDB);
    assert [DOT] + PDB == DOT_PDB;
  }

  lemma {:induction false} Joined(a: Name, b: Name, c: Name)
    ensures a + (b + c) == a + b + c
  {
  }

  /** In the list that any calls build, entry 2k has the k-th call's own files, and entry 2k + 1 none. */
  lemma {:induction false} BuiltFiles(files: Files, storedName: (Name, Item) -> Name, calls: seq<Call>, arch: Arch,
                                      dirs: seq<Name>, bases: seq<Name>, k: nat)
    requires AllAdd(CallsFor(calls, arch), dirs, bases) && k < |bases|
    ensures var list := ListOf(Run(files, storedName, true, calls), arch);
            && |list| == 2 * |bases|
            && ReadFrom(files, list[2 * k], CallsFor(calls, arch)[k], dirs[k], bases[k])
            && list[2 * k + 1].ignored && list[2 * k + 1].source == None && list[2 * k + 1].config == None
            && list[2 * k + 1].symbols == None
  {
    hide StoredInfo, ReadFrom;
    RunLists(files, storedName, calls, arch);
    EntryReadFrom(files, storedName, CallsFor(calls, arch)[k], dirs[k], bases[k]);
  }
}
