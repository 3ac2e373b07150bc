/** ARM target-feature resolution: the closing part of `getARMTargetFeatures`, which appends to a
    feature vector so that, read with "the last mention wins", the result respects the dependencies
    fp16fml -> fullfp16, crypto = sha2 + aes, and {aes, sha2, bf16, dotprod, i8mm} -> neon. */
module ArmFeatures {

  import opened Basics

  /** One entry of the vector: the string "+name" or "-name", split into its sign and its name. */
  datatype Feature = Feature(plus: bool, name: string)

  function Plus(name: string): Feature { Feature(true, name) }

  function Minus(name: string): Feature { Feature(false, name) }

  // ----- Reading a feature vector -----

  function Named(name: string): Feature -> bool { (g: Feature) => g.name == name }

  /** The setting of `name` in force after the whole vector: its last exact mention, if any. */
  function Setting(fs: seq<Feature>, name: string): Option<bool> {
    LastSign(fs, Named(name))
  }

  predicate On(fs: seq<Feature>, name: string) {
    Setting(fs, name) == Some(true)
  }

  predicate OccursAt(s: string, t: string, i: int) {
    0 <= i <= |s| - |t| && s[i..i + |t|] == t
  }

  predicate ContainsText(s: string, t: string) {
    exists i | 0 <= i <= |s| :: OccursAt(s, t, i)
  }

  /** The sign of the entry `llvm::find_if(llvm::reverse(Features), p)` stops at; None for `rend`. */
  function LastSign(fs: seq<Feature>, p: Feature -> bool): Option<bool> {
    if fs == [] then None
    else if p(fs[|fs| - 1]) then Some(fs[|fs| - 1].plus)
    else LastSign(fs[..|fs| - 1], p)
  }

  /** `std::find(Features.rbegin(), Features.rend(), f)` as an iterator: the distance from the end of the
      vector to the last entry satisfying `p`; the length of the vector when there is none (the iterator `rend`). */
  function FromEnd(fs: seq<Feature>, p: Feature -> bool): (r: nat)
    ensures r <= |fs|
  {
    if fs == [] || p(fs[|fs| - 1]) then 0 else 1 + FromEnd(fs[..|fs| - 1], p)
  }

  function Is(f: Feature): Feature -> bool { (g: Feature) => g == f }

  /** `F.contains(t)`; no searched text starts with a sign, so only the name can contain it. */
  function Mentions(t: string): Feature -> bool { (g: Feature) => ContainsText(g.name, t) }

  function MentionsEither(t: string, u: string): Feature -> bool {
    (g: Feature) => ContainsText(g.name, t) || ContainsText(g.name, u)
  }

  /** `It != rend && It->starts_with("+")` for the last entry satisfying `p`. */
  predicate LastIsPlus(fs: seq<Feature>, p: Feature -> bool) {
    LastSign(fs, p) == Some(true)
  }

  // ----- The blocks, as what they append -----

  function Fp16Suffix(fs: seq<Feature>, isV84: bool): seq<Feature> {
    var noFull := FromEnd(fs, Is(Minus("fullfp16")));
    var fml := FromEnd(fs, Is(Plus("fp16fml")));
    var full := FromEnd(fs, Is(Plus("fullfp16")));
    if isV84 && full < noFull && full < fml then
      if FromEnd(fs[|fs| - full..], Is(Minus("fp16fml"))) == full then [Plus("fp16fml")] else []
    else if noFull < fml then [Minus("fp16fml")]
    else if noFull > fml then [Plus("fullfp16")]
    else []
  }

  const SIMD_OFF := [Minus("sha2"), Minus("aes"), Minus("crypto"), Minus("dotprod"), Minus("bf16"), Minus("i8mm")]

  function SimdSuffix(fs: seq<Feature>, fpuSupportsNeon: bool): seq<Feature> {
    if !LastIsPlus(fs, Mentions("neon")) && fpuSupportsNeon then SIMD_OFF else []
  }

  predicate HasPart(fs: seq<Feature>, part: string) { LastIsPlus(fs, MentionsEither("crypto", part)) }

  predicate CryptoMentioned(fs: seq<Feature>) { LastSign(fs, Mentions("crypto")).Some? }

  function CryptoSuffix(fs: seq<Feature>): seq<Feature> {
    if CryptoMentioned(fs)
    then [Feature(HasPart(fs, "sha2") && HasPart(fs, "aes"), "crypto"),
          Feature(HasPart(fs, "sha2"), "sha2"),
          Feature(HasPart(fs, "aes"), "aes")]
    else []
  }

  /** Some feature that relies on NEON is on, as the code decides it before the crypto block appends. */
  predicate NeedsNeon(fs: seq<Feature>) {
    || HasPart(fs, "aes")
    || HasPart(fs, "sha2")
    || LastIsPlus(fs, Mentions("bf16"))
    || LastIsPlus(fs, Mentions("dotprod"))
    || LastIsPlus(fs, Mentions("i8mm"))
  }

  function NeonSuffix(fs: seq<Feature>): seq<Feature> {
    if NeedsNeon(fs) then [Plus("neon")] else []
  }

  /** The crypto and NEON blocks read the vector once and append one after the other. */
  function AfterCryptoNeon(fs: seq<Feature>): seq<Feature> {
    fs + CryptoSuffix(fs) + NeonSuffix(fs)
  }

  // ----- The vector as the compiler driver mutates it -----

  class FeatureVector {
    var features: seq<Feature>

    constructor (initial: seq<Feature>)
      ensures features == initial
    {
      features := initial;
    }

    method PushBack(f: Feature)
      modifies this
      ensures features == old(features) + [f]
    {
      features := features + [f];
    }

    method ResolveFp16(isV84: bool)
      modifies this
      ensures features == old(features) + Fp16Suffix(old(features), isV84)
      ensures On(features, "fp16fml") ==> On(features, "fullfp16")
      ensures On(features, "fullfp16") <==> Fp16Meaning(old(features), isV84).full
      ensures On(features, "fp16fml") <==> Fp16Meaning(old(features), isV84).fml
    {
      Fp16Closure(features, isV84);
      Fp16Exactly(features, isV84);
      var noFull := FromEnd(features, Is(Minus("fullfp16")));
      var fml := FromEnd(features, Is(Plus("fp16fml")));
      var fallThrough := true;
      if isV84 {
        var full := FromEnd(features, Is(Plus("fullfp16")));
        if full < noFull && full < fml {
          fallThrough := false;
          if FromEnd(features[|features| - full..], Is(Minus("fp16fml"))) == full {
            PushBack(Plus("fp16fml"));
          }
        }
      }
      if fallThrough {
        if noFull < fml {
          PushBack(Minus("fp16fml"));
        } else if noFull > fml {
          PushBack(Plus("fullfp16"));
        }
      }
    }

    method DisableSimdDependents(fpuSupportsNeon: bool)
      modifies this
      ensures features == old(features) + SimdSuffix(old(features), fpuSupportsNeon)
    {
      if !LastIsPlus(features, Mentions("neon")) && fpuSupportsNeon {
        features := features + SIMD_OFF;
      }
    }

    method ResolveCryptoAndNeon()
      modifies this
      ensures features == AfterCryptoNeon(old(features))
      ensures CryptoMentioned(old(features)) ==>
                (On(features, "crypto") <==> On(features, "sha2") && On(features, "aes"))
    {
      CryptoIsSha2AndAes(features);
      var hasSha2, hasAes := HasPart(features, "sha2"), HasPart(features, "aes");
      var needsNeon := NeedsNeon(features);
      if CryptoMentioned(features) {
        PushBack(Feature(hasSha2 && hasAes, "crypto"));
        PushBack(Feature(hasSha2, "sha2"));
        PushBack(Feature(hasAes, "aes"));
      }
      if needsNeon {
        PushBack(Plus("neon"));
      }
    }
  }

  // ----- Last mention wins -----

  lemma SettingOfPush(fs: seq<Feature>, f: Feature, name: string)
    ensures Setting(fs + [f], name) == if f.name == name then Some(f.plus) else Setting(fs, name)
  {
    LastSignOfPush(fs, f, Named(name));
  }

  lemma LastSignOfPush(fs: seq<Feature>, f: Feature, p: Feature -> bool)
    ensures LastSign(fs + [f], p) == if p(f) then Some(f.plus) else LastSign(fs, p)
  {
    assert (fs + [f])[..|fs|] == fs;
  }

  /** `Setting` compares the last "+name" with the last "-name". */
  lemma {:induction false} SettingByDistance(fs: seq<Feature>, name: string)
    ensures var on, off := FromEnd(fs, Is(Plus(name))), FromEnd(fs, Is(Minus(name)));
            Setting(fs, name) == if on < off then Some(true) else if off < on then Some(false) else None
  {
    if fs != [] {
      SettingByDistance(fs[..|fs| - 1], name);
    }
  }

  // ----- fp16fml needs fullfp16 -----

  /** After the fp16 block, on either architecture branch, fp16fml on implies fullfp16 on. */
  lemma Fp16Closure(fs: seq<Feature>, isV84: bool)
    ensures var r := fs + Fp16Suffix(fs, isV84); On(r, "fp16fml") ==> On(r, "fullfp16")
  {
    var suffix := Fp16Suffix(fs, isV84);
    SettingByDistance(fs, "fullfp16");
    if suffix == [] {
      assert fs + suffix == fs;
      SettingByDistance(fs, "fp16fml");
      var full := FromEnd(fs, Is(Plus("fullfp16")));
      if isV84 && full < FromEnd(fs, Is(Minus("fullfp16"))) {
        NearestHit(fs, full, Minus("fp16fml"));
      } else {
        DistinctHits(fs, Minus("fullfp16"), Plus("fp16fml"));
      }
    } else {
      SettingOfPush(fs, suffix[0], "fullfp16");
      SettingOfPush(fs, suffix[0], "fp16fml");
    }
  }

  /** Whether fullfp16 and fp16fml are on. */
  datatype Fp16 = Fp16(full: bool, fml: bool)

  /** The reference reading of a vector, entry by entry: turning fp16fml on turns fullfp16 on, turning fullfp16 off
      turns fp16fml off, and from v8.4 on turning fullfp16 on turns fp16fml on. */
  function Fp16Meaning(fs: seq<Feature>, isV84: bool): Fp16 {
    if fs == [] then Fp16(false, false)
    else
      var before, f := Fp16Meaning(fs[..|fs| - 1], isV84), fs[|fs| - 1];
      if f == Plus("fullfp16") then Fp16(true, before.fml || isV84)
      else if f == Minus("fullfp16") then Fp16(false, false)
      else if f == Plus("fp16fml") then Fp16(true, true)
      else if f == Minus("fp16fml") then Fp16(before.full, false)
      else before
  }

  function Nearer(a: nat, b: nat): nat { if a < b then a else b }

  /** The reading by the distances of the four mentions from the end. */
  lemma {:induction false} Fp16ByDistance(fs: seq<Feature>, isV84: bool)
    ensures var full, noFull := FromEnd(fs, Is(Plus("fullfp16"))), FromEnd(fs, Is(Minus("fullfp16")));
            var fml, noFml := FromEnd(fs, Is(Plus("fp16fml"))), FromEnd(fs, Is(Minus("fp16fml")));
            && (Fp16Meaning(fs, isV84).full <==> Nearer(full, fml) < noFull)
            && (Fp16Meaning(fs, isV84).fml <==>
                  (if isV84 then Nearer(full, fml) else fml) < Nearer(noFull, noFml))
  {
    if fs != [] {
      Fp16ByDistance(fs[..|fs| - 1], isV84);
    }
  }

  /** After the block the last mentions say exactly what the reference reading says of the vector before it. */
  lemma Fp16Exactly(fs: seq<Feature>, isV84: bool)
    ensures var r := fs + Fp16Suffix(fs, isV84);
            && (On(r, "fullfp16") <==> Fp16Meaning(fs, isV84).full)
            && (On(r, "fp16fml") <==> Fp16Meaning(fs, isV84).fml)
  {
    hide Fp16Meaning, FromEnd;
    var suffix := Fp16Suffix(fs, isV84);
    Fp16ByDistance(fs, isV84);
    SettingByDistance(fs, "fullfp16");
    SettingByDistance(fs, "fp16fml");
    DifferentHits(fs, Plus("fullfp16"), Minus("fullfp16"));
    DifferentHits(fs, Plus("fullfp16"), Plus("fp16fml"));
    DifferentHits(fs, Minus("fullfp16"), Plus("fp16fml"));
    DifferentHits(fs, Plus("fullfp16"), Minus("fp16fml"));
    DifferentHits(fs, Minus("fullfp16"), Minus("fp16fml"));
    DifferentHits(fs, Plus("fp16fml"), Minus("fp16fml"));
    var full := FromEnd(fs, Is(Plus("fullfp16")));
    NearestHit(fs, full, Minus("fp16fml"));
    if suffix == [] {
      assert fs + suffix == fs;
    } else {
      SettingOfPush(fs, suffix[0], "fullfp16");
      SettingOfPush(fs, suffix[0], "fp16fml");
    }
  }

  lemma DifferentHits(fs: seq<Feature>, f: Feature, g: Feature)
    requires f != g
    ensures FromEnd(fs, Is(f)) == FromEnd(fs, Is(g)) ==> FromEnd(fs, Is(f)) == |fs|
  {
    if FromEnd(fs, Is(f)) == FromEnd(fs, Is(g)) {
      DistinctHits(fs, f, g);
    }
  }

  lemma {:induction false} DistinctHits(fs: seq<Feature>, f: Feature, g: Feature)
    requires f != g && FromEnd(fs, Is(f)) == FromEnd(fs, Is(g))
    ensures FromEnd(fs, Is(f)) == |fs|
  {
    if fs != [] {
      DistinctHits(fs[..|fs| - 1], f, g);
    }
  }

  /** A hit in the last `n` entries is at the same distance in the whole vector. */
  lemma {:induction false} NearestHit(fs: seq<Feature>, n: nat, f: Feature)
    requires n <= |fs|
    ensures FromEnd(fs[|fs| - n..], Is(f)) < n <==> FromEnd(fs, Is(f)) < n
  {
    if n > 0 {
      var init := fs[..|fs| - 1];
      assert fs[|fs| - n..][..n - 1] == init[|init| - (n - 1)..];
      NearestHit(init, n - 1, f);
    }
  }

  /** The block only ever speaks about its own two features. */
  lemma Fp16Frame(fs: seq<Feature>, isV84: bool, name: string)
    requires name != "fp16fml" && name != "fullfp16"
    ensures Setting(fs + Fp16Suffix(fs, isV84), name) == Setting(fs, name)
  {
    assert fs + [] == fs;
    if Fp16Suffix(fs, isV84) != [] {
      SettingOfPush(fs, Fp16Suffix(fs, isV84)[0], name);
    }
  }

  // ----- crypto = sha2 + aes -----

  /** The settings in force after the crypto and NEON blocks, of every feature. */
  lemma SettingAfter(fs: seq<Feature>, name: string)
    ensures Setting(AfterCryptoNeon(fs), name) ==
            if name == "neon" && NeedsNeon(fs) then Some(true)
            else if name == "crypto" && CryptoMentioned(fs) then Some(HasPart(fs, "sha2") && HasPart(fs, "aes"))
            else if (name == "sha2" || name == "aes") && CryptoMentioned(fs) then Some(HasPart(fs, name))
            else Setting(fs, name)
  {
    var c, r := CryptoSuffix(fs), fs;
    if c != [] {
      SettingOfPush(fs, c[0], name);
      SettingOfPush(fs + [c[0]], c[1], name);
      SettingOfPush(fs + [c[0]] + [c[1]], c[2], name);
      r := fs + [c[0]] + [c[1]] + [c[2]];
    }
    assert fs + c == r;
    SettingOfPush(r, Plus("neon"), name);
    assert r + [] == r;
  }

  /** Once crypto is mentioned at all, it ends up on exactly when both of its parts do. */
  lemma CryptoIsSha2AndAes(fs: seq<Feature>)
    ensures CryptoMentioned(fs) ==>
              var r := AfterCryptoNeon(fs);
              On(r, "crypto") <==> On(r, "sha2") && On(r, "aes")
  {
    SettingAfter(fs, "crypto");
    SettingAfter(fs, "sha2");
    SettingAfter(fs, "aes");
  }

  lemma FirstLetterAbsent(s: string, t: string)
    requires t != "" && forall i :: 0 <= i <= |s| - |t| ==> s[i] != t[0]
    ensures !ContainsText(s, t)
  {
    forall i ensures !OccursAt(s, t, i) {
      if 0 <= i <= |s| - |t| {
        assert s[i..i + |t|][0] == s[i];
      }
    }
  }

  lemma ContainsItself(t: string)
    ensures ContainsText(t, t)
  {
    assert OccursAt(t, t, 0);
  }

  /** How the appended names look to the substring searches. */
  lemma AppendedMentions(n: string, t: string)
    requires n in {"crypto", "sha2", "aes", "neon"}
    requires t in {"crypto", "sha2", "aes", "bf16", "dotprod", "i8mm"}
    ensures ContainsText(n, t) <==> n == t
  {
    if n == t {
      ContainsItself(t);
    } else {
      FirstLetterAbsent(n, t);
    }
  }

  lemma PushSeesOnly(fs: seq<Feature>, f: Feature)
    requires f.name in {"crypto", "sha2", "aes", "neon"}
    ensures HasPart(fs + [f], "sha2") == if f.name in {"crypto", "sha2"} then f.plus else HasPart(fs, "sha2")
    ensures HasPart(fs + [f], "aes") == if f.name in {"crypto", "aes"} then f.plus else HasPart(fs, "aes")
    ensures CryptoMentioned(fs + [f]) == (CryptoMentioned(fs) || f.name == "crypto")
    ensures forall t :: t in {"bf16", "dotprod", "i8mm"} ==>
              LastIsPlus(fs + [f], Mentions(t)) == LastIsPlus(fs, Mentions(t))
  {
    AppendedMentions(f.name, "crypto");
    AppendedMentions(f.name, "sha2");
    AppendedMentions(f.name, "aes");
    LastSignOfPush(fs, f, MentionsEither("crypto", "sha2"));
    LastSignOfPush(fs, f, MentionsEither("crypto", "aes"));
    LastSignOfPush(fs, f, Mentions("crypto"));
    forall t | t in {"bf16", "dotprod", "i8mm"}
      ensures LastIsPlus(fs + [f], Mentions(t)) == LastIsPlus(fs, Mentions(t))
    {
      AppendedMentions(f.name, t);
      LastSignOfPush(fs, f, Mentions(t));
    }
  }

  /** The blocks' own appends do not change what the blocks would decide. */
  lemma DecisionsStable(fs: seq<Feature>)
    ensures var r := AfterCryptoNeon(fs);
            && HasPart(r, "sha2") == HasPart(fs, "sha2") && HasPart(r, "aes") == HasPart(fs, "aes")
            && CryptoMentioned(r) == CryptoMentioned(fs) && NeedsNeon(r) == NeedsNeon(fs)
  {
    var c, r := CryptoSuffix(fs), fs;
    if c != [] {
      PushSeesOnly(fs, c[0]);
      PushSeesOnly(fs + [c[0]], c[1]);
      PushSeesOnly(fs + [c[0]] + [c[1]], c[2]);
      r := fs + [c[0]] + [c[1]] + [c[2]];
    }
    assert fs + c == r;
    PushSeesOnly(r, Plus("neon"));
    assert r + [] == r;
  }

  /** Running the crypto and NEON blocks a second time changes no effective setting, of any feature. */
  lemma RerunChangesNothing(fs: seq<Feature>, name: string)
    ensures Setting(AfterCryptoNeon(AfterCryptoNeon(fs)), name) == Setting(AfterCryptoNeon(fs), name)
  {
    DecisionsStable(fs);
    SettingAfter(fs, name);
    SettingAfter(AfterCryptoNeon(fs), name);
  }

  // ----- The meaning of crypto, by expansion -----

  /** The reference reading: crypto abbreviates sha2 and aes, so replace each mention by both. */
  function Expand(fs: seq<Feature>): seq<Feature> {
    if fs == [] then []
    else
      var f := fs[|fs| - 1];
      Expand(fs[..|fs| - 1]) + (if f.name == "crypto" then [Feature(f.plus, "sha2"), Feature(f.plus, "aes")] else [f])
  }

  /** Every entry whose name contains `t` is named exactly `t`. */
  predicate Plain(fs: seq<Feature>, t: string) {
    forall f :: f in fs && ContainsText(f.name, t) ==> f.name == t
  }

  lemma {:induction false} ExpansionDecides(fs: seq<Feature>, part: string)
    requires part == "sha2" || part == "aes"
    requires Plain(fs, "crypto") && Plain(fs, part)
    ensures HasPart(fs, part) == On(Expand(fs), part)
  {
    if fs != [] {
      var init, f := fs[..|fs| - 1], fs[|fs| - 1];
      assert fs == init + [f];
      ExpansionDecides(init, part);
      LastSignOfPush(init, f, MentionsEither("crypto", part));
      ContainsItself("crypto");
      ContainsItself(part);
      var e := Expand(init);
      if f.name == "crypto" {
        SettingOfPush(e, Feature(f.plus, "sha2"), part);
        SettingOfPush(e + [Feature(f.plus, "sha2")], Feature(f.plus, "aes"), part);
        assert Expand(fs) == e + [Feature(f.plus, "sha2")] + [Feature(f.plus, "aes")];
      } else {
        SettingOfPush(e, f, part);
      }
    }
  }

  lemma {:induction false} NoCryptoExpand(fs: seq<Feature>)
    requires !CryptoMentioned(fs)
    ensures Expand(fs) == fs
  {
    if fs != [] {
      ContainsItself("crypto");
      NoCryptoExpand(fs[..|fs| - 1]);
    }
  }

  /** With plain names, the blocks leave sha2 and aes exactly the settings that the expansion of every
      crypto mention gives them: "+crypto" then "-aes" leaves sha2 on and aes off. */
  lemma CryptoMeansExpansion(fs: seq<Feature>, part: string)
    requires part == "sha2" || part == "aes"
    requires Plain(fs, "crypto") && Plain(fs, part)
    ensures On(AfterCryptoNeon(fs), part) <==> On(Expand(fs), part)
  {
    ExpansionDecides(fs, part);
    SettingAfter(fs, part);
    if !CryptoMentioned(fs) {
      NoCryptoExpand(fs);
    }
  }

  // ----- NEON dependents -----

  /** aes, sha2, bf16, dotprod or i8mm on implies neon on. */
  predicate NeonClosed(fs: seq<Feature>) {
    On(fs, "aes") || On(fs, "sha2") || On(fs, "bf16") || On(fs, "dotprod") || On(fs, "i8mm") ==> On(fs, "neon")
  }

  /** Entry `k` turns something else off whose name contains `name`, while `name` is on. */
  predicate Hides(fs: seq<Feature>, name: string, k: nat) {
    && k < |fs| && !fs[k].plus && fs[k].name != name && ContainsText(fs[k].name, name)
    && On(fs, name) && On(fs[..k], name)
  }

  predicate Hidden(fs: seq<Feature>, name: string) { exists k: nat | k < |fs| :: Hides(fs, name, k) }

  /** A feature that is on is missed by the search for its name only behind such an entry. */
  lemma {:induction false} SeenOrHidden(fs: seq<Feature>, name: string)
    requires On(fs, name) && !LastIsPlus(fs, Mentions(name))
    ensures Hidden(fs, name)
  {
    var init, f := fs[..|fs| - 1], fs[|fs| - 1];
    ContainsItself(name);
    if ContainsText(f.name, name) {
      assert Hides(fs, name, |fs| - 1);
    } else {
      SeenOrHidden(init, name);
      var k: nat :| k < |init| && Hides(init, name, k);
      assert fs[..k] == init[..k];
      assert Hides(fs, name, k);
    }
  }

  /** Without a mention of crypto, the searches for its parts are those for their names. */
  lemma {:induction false} PartSearch(fs: seq<Feature>, part: string)
    requires !CryptoMentioned(fs)
    ensures HasPart(fs, part) == LastIsPlus(fs, Mentions(part))
  {
    if fs != [] {
      PartSearch(fs[..|fs| - 1], part);
    }
  }

  const DEPENDENTS := {"aes", "sha2", "bf16", "dotprod", "i8mm"}

  /** A dependent on which a setting of its own, and not one that crypto gives it, is in force. */
  predicate Unaided(fs: seq<Feature>, name: string) {
    name in DEPENDENTS && (name in {"aes", "sha2"} ==> !CryptoMentioned(fs))
  }

  /** Where no search reports a dependent, the ones on after the blocks are the unaided ones that are hidden. */
  lemma OnIfHidden(fs: seq<Feature>, name: string)
    requires name in DEPENDENTS && !NeedsNeon(fs)
    ensures On(AfterCryptoNeon(fs), name) <==> Unaided(fs, name) && Hidden(fs, name)
  {
    hide AfterCryptoNeon, OccursAt, ContainsText;
    SettingAfter(fs, name);
    if Unaided(fs, name) && On(fs, name) {
      if name in {"aes", "sha2"} {
        PartSearch(fs, name);
      }
      SeenOrHidden(fs, name);
    }
  }

  /** The searches are by substring: the closure fails exactly when neon is not on, no search reports a
      dependent, and some dependent that is on is hidden by a later entry turning off something else whose
      name contains it. For aes and sha2 that takes a vector in which crypto is not mentioned. */
  lemma NeonClosureExact(fs: seq<Feature>)
    ensures NeonClosed(AfterCryptoNeon(fs)) <==>
            !(&& !On(fs, "neon") && !NeedsNeon(fs)
              && exists name | name in DEPENDENTS :: Unaided(fs, name) && Hidden(fs, name))
  {
    hide AfterCryptoNeon, NeedsNeon, On, Unaided, Hidden;
    NeonOn(fs);
    if !NeedsNeon(fs) {
      forall name | name in DEPENDENTS
        ensures On(AfterCryptoNeon(fs), name) <==> Unaided(fs, name) && Hidden(fs, name)
      {
        OnIfHidden(fs, name);
      }
    }
  }

  lemma NeonOn(fs: seq<Feature>)
    ensures On(AfterCryptoNeon(fs), "neon") <==> NeedsNeon(fs) || On(fs, "neon")
  {
    hide AfterCryptoNeon, NeedsNeon;
    SettingAfter(fs, "neon");
  }

  /** With plain names the closure always holds after the blocks. */
  lemma NeonClosure(fs: seq<Feature>)
    requires forall name :: name in DEPENDENTS ==> Plain(fs, name)
    ensures NeonClosed(AfterCryptoNeon(fs))
  {
    hide NeedsNeon, AfterCryptoNeon, On, NeonClosed;
    NeonClosureExact(fs);
    forall name | name in DEPENDENTS ensures !Hidden(fs, name) {
      assert Plain(fs, name);
    }
  }

  /** Not for every vector: "-fuse-aes" after "+aes" hides it from the substring search. */
  lemma NeonClosureCanFail()
    ensures !NeonClosed(AfterCryptoNeon([Plus("aes"), Minus("fuse-aes")]))
  {
    var a, b := Plus("aes"), Minus("fuse-aes");
    ContainsItself("aes");
    assert OccursAt("fuse-aes", "aes", 5);
    forall n, t | n in {"aes", "fuse-aes"} && t in {"crypto", "bf16", "dotprod", "i8mm"} ensures !ContainsText(n, t) {
      FirstLetterAbsent(n, t);
    }
    forall i ensures !OccursAt("fuse-aes", "sha2", i) {
      if 0 <= i <= 4 {
        assert "fuse-aes"[i..i + 4][1] == "fuse-aes"[i + 1];
      }
    }
    LastSignOfTwo(a, b, MentionsEither("crypto", "aes"));
    LastSignOfTwo(a, b, MentionsEither("crypto", "sha2"));
    LastSignOfTwo(a, b, Mentions("crypto"));
    LastSignOfTwo(a, b, Mentions("bf16"));
    LastSignOfTwo(a, b, Mentions("dotprod"));
    LastSignOfTwo(a, b, Mentions("i8mm"));
    LastSignOfTwo(a, b, Named("aes"));
    LastSignOfTwo(a, b, Named("neon"));
    NeonClosureExact([a, b]);
  }

  lemma LastSignOfTwo(a: Feature, b: Feature, p: Feature -> bool)
    ensures LastSign([a, b], p) == if p(b) then Some(b.plus) else if p(a) then Some(a.plus) else None
  {
    assert [a] + [b] == [a, b] && [] + [a] == [a];
    LastSignOfPush([], a, p);
    LastSignOfPush([a], b, p);
  }

  lemma {:induction false} PlainIsSeen(fs: seq<Feature>, t: string)
    requires Plain(fs, t)
    ensures LastIsPlus(fs, Mentions(t)) == On(fs, t)
  {
    if fs != [] {
      var init, f := fs[..|fs| - 1], fs[|fs| - 1];
      assert fs == init + [f];
      PlainIsSeen(init, t);
      LastSignOfPush(init, f, Mentions(t));
      ContainsItself(t);
    }
  }

  predicate AllPlain(fs: seq<Feature>) { Plain(fs, "crypto") && forall t :: t in DEPENDENTS ==> Plain(fs, t) }

  /** With plain names, neon ends up on exactly when it was on or some dependent ends up on: it is never turned on
      for anything else. */
  lemma NeonOnlyIfNeeded(fs: seq<Feature>)
    requires AllPlain(fs)
    ensures On(AfterCryptoNeon(fs), "neon") <==>
            On(fs, "neon") || exists t | t in DEPENDENTS :: On(AfterCryptoNeon(fs), t)
  {
    hide AfterCryptoNeon, ContainsText, OccursAt;
    NeonOn(fs);
    assert Plain(fs, "bf16") && Plain(fs, "dotprod") && Plain(fs, "i8mm") && Plain(fs, "sha2") && Plain(fs, "aes");
    NeededIsOn(fs, "aes");
    NeededIsOn(fs, "sha2");
    NeededIsOn(fs, "bf16");
    NeededIsOn(fs, "dotprod");
    NeededIsOn(fs, "i8mm");
  }

  /** What the blocks see of a plain dependent is what they leave. */
  lemma NeededIsOn(fs: seq<Feature>, t: string)
    requires t in DEPENDENTS && Plain(fs, "crypto") && Plain(fs, t)
    ensures On(AfterCryptoNeon(fs), t) <==>
            if t in {"aes", "sha2"} then HasPart(fs, t) else LastIsPlus(fs, Mentions(t))
  {
    hide ContainsText, OccursAt, AfterCryptoNeon;
    SettingAfter(fs, t);
    if t in {"aes", "sha2"} {
      ExpansionDecides(fs, t);
      if !CryptoMentioned(fs) {
        NoCryptoExpand(fs);
      }
    } else {
      PlainIsSeen(fs, t);
    }
  }

  // ----- SIMD off -----

  lemma {:induction false} LastSignOfTail(fs: seq<Feature>, tail: seq<Feature>, p: Feature -> bool)
    ensures LastSign(fs + tail, p) == if LastSign(tail, p).Some? then LastSign(tail, p) else LastSign(fs, p)
  {
    if tail == [] {
      assert fs + tail == fs;
    } else {
      var init := tail[..|tail| - 1];
      assert (fs + tail)[..|fs + tail| - 1] == fs + init;
      LastSignOfTail(fs, init, p);
    }
  }

  lemma {:induction false} AllMinus(fs: seq<Feature>, p: Feature -> bool, k: nat)
    requires forall f :: f in fs ==> !f.plus
    requires k < |fs| && p(fs[k])
    ensures LastSign(fs, p) == Some(false)
  {
    if !p(fs[|fs| - 1]) {
      AllMinus(fs[..|fs| - 1], p, k);
    }
  }

  /** What a search reports once the six "off" entries close the vector. */
  lemma DisabledTail(fs: seq<Feature>, p: Feature -> bool, k: nat)
    requires k < |SIMD_OFF| && p(SIMD_OFF[k])
    ensures LastSign(fs + SIMD_OFF, p) == Some(false)
  {
    AllMinus(SIMD_OFF, p, k);
    LastSignOfTail(fs, SIMD_OFF, p);
  }

  /** When no NEON entry survives and the FPU could have supported NEON, the SIMD block followed by
      the crypto and NEON blocks leaves every dependent off, crypto included. */
  lemma SimdOffDisablesDependents(fs: seq<Feature>, name: string)
    requires !LastIsPlus(fs, Mentions("neon"))
    requires exists k :: 0 <= k < |SIMD_OFF| && SIMD_OFF[k].name == name
    ensures Setting(AfterCryptoNeon(fs + SimdSuffix(fs, true)), name) == Some(false)
  {
    ContainsItself("crypto");
    DisabledTail(fs, Mentions("crypto"), 2);
    DisabledTail(fs, MentionsEither("crypto", "sha2"), 2);
    DisabledTail(fs, MentionsEither("crypto", "aes"), 2);
    SettingAfter(fs + SIMD_OFF, name);
    var k :| 0 <= k < |SIMD_OFF| && SIMD_OFF[k].name == name;
    DisabledTail(fs, Named(name), k);
  }

  /** The SIMD block by itself: it turns its six features off exactly when neon is not on and the FPU supports it,
      and touches no other feature. */
  lemma SimdExactly(fs: seq<Feature>, fpuSupportsNeon: bool, name: string)
    requires Plain(fs, "neon")
    ensures Setting(fs + SimdSuffix(fs, fpuSupportsNeon), name) ==
            if name in {"sha2", "aes", "crypto", "dotprod", "bf16", "i8mm"} && !On(fs, "neon") && fpuSupportsNeon
            then Some(false) else Setting(fs, name)
  {
    PlainIsSeen(fs, "neon");
    if SimdSuffix(fs, fpuSupportsNeon) == [] {
      assert fs + [] == fs;
    } else if k :| 0 <= k < |SIMD_OFF| && SIMD_OFF[k].name == name {
      DisabledTail(fs, Named(name), k);
    } else {
      NoneNamed(name);
      LastSignOfTail(fs, SIMD_OFF, Named(name));
    }
  }

  lemma NoneNamed(name: string)
    requires forall k :: 0 <= k < |SIMD_OFF| ==> SIMD_OFF[k].name != name
    ensures LastSign(SIMD_OFF, Named(name)) == None
    ensures name !in {"sha2", "aes", "crypto", "dotprod", "bf16", "i8mm"}
  {
    assert SIMD_OFF[0].name == "sha2" && SIMD_OFF[1].name == "aes" && SIMD_OFF[2].name == "crypto";
    assert SIMD_OFF[3].name == "dotprod" && SIMD_OFF[4].name == "bf16" && SIMD_OFF[5].name == "i8mm";
    NoneSatisfies(SIMD_OFF, Named(name));
  }

  lemma {:induction false} NoneSatisfies(fs: seq<Feature>, p: Feature -> bool)
    requires forall k :: 0 <= k < |fs| ==> !p(fs[k])
    ensures LastSign(fs, p) == None
  {
    if fs != [] {
      NoneSatisfies(fs[..|fs| - 1], p);
    }
  }
}
