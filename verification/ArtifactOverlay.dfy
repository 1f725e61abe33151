/** Laying reworked code artifacts over the originals, file by file. */
module ArtifactOverlay {
  import opened ArtifactValidation
  import opened ContractParser
  import opened Dicts
  import opened Results
  import opened SafePaths
  import opened Text

  predicate AllText(files: FileMap) {
    forall file | file in files :: file.key.PathKey? && file.value.SourceText?
  }

  /** `_as_file_map` */
  function AsFileMap(rules: Rules, value: Value): Option<FileMap> {
    match value
    case Files(files) => if files != [] && AllText(files) then Some(files) else None
    case Payload(text) =>
      var files := ExtractFiles(rules, Strip(text));
      if files != [] then Some(files) else None
    case _ => None
  }

  /** The files of an override that passes the contract. */
  function OverrideFiles(rules: Rules, override: Value): Option<FileMap> {
    if override.Null? || ValueReport(rules, "override", override) != [] then None else AsFileMap(rules, override)
  }

  /** `overlay_code_artifact` */
  function OverlayCodeArtifact(rules: Rules, base: Value, override: Value): (Value, bool) {
    match OverrideFiles(rules, override)
    case None => (base, false)
    case Some(files) =>
      match AsFileMap(rules, base)
      case None => (Files(files), true)
      case Some(baseFiles) => (Files(Merge(baseFiles, files)), true)
  }

  // ---- One parser for validation and extraction ----

  lemma {:induction false} SafeFilesAreText(rules: Rules, files: FileMap)
    requires FilesAccepted(rules, files)
    ensures AllText(files)
  {
    forall file | file in files ensures file.key.PathKey? && file.value.SourceText? {
      assert FileAccepted(rules, file.key, file.value);
    }
  }

  /** An override is applied exactly when it satisfies the contract, and then the files laid over
      the base are the very files that were validated: the lenient extractor drops nothing. */
  lemma {:induction false} AppliedFilesAreValidated(rules: Rules, override: Value)
    ensures OverrideFiles(rules, override).Some? <==> ValueAccepted(rules, override)
    ensures ValueAccepted(rules, override) ==>
              && FilesAccepted(rules, OverrideFiles(rules, override).value)
              && OverrideFiles(rules, override).value
                 == match override
                    case Files(files) => files
                    case Payload(text) => FilesOf(rules.blocks(Strip(text)))
                    case _ => []
  {
    AcceptedValues(rules, "override", override);
    match override
    case Files(files) =>
      if FilesAccepted(rules, files) { SafeFilesAreText(rules, files); }
    case Payload(text) =>
      var stripped := Strip(text);
      if |stripped| <= MAX_ARTIFACT_LENGTH {
        assert Slice(stripped, 0, MAX_ARTIFACT_LENGTH) == stripped;
      }
    case _ =>
  }

  /** Which values are file maps, and of which files: a dictionary with a file and nothing but text, and a
      text with a FILE block among its first 262144 characters. */
  lemma {:induction false} FileMapMeans(rules: Rules, value: Value)
    ensures match value
            case Files(files) =>
              AsFileMap(rules, value)
              == if files != [] && forall file | file in files :: file.key.PathKey? && file.value.SourceText?
                 then Some(files) else None
            case Payload(text) =>
              var stripped := Strip(text);
              var blocks := rules.blocks(if |stripped| > 262144 then stripped[..262144] else stripped);
              AsFileMap(rules, value) == if blocks != [] then Some(FilesOf(blocks)) else None
            case _ => AsFileMap(rules, value).None?
  {
    if value.Payload? {
      ExtractsFromStart(rules, Strip(value.text));
      var stripped := Strip(value.text);
      var blocks := rules.blocks(if |stripped| > 262144 then stripped[..262144] else stripped);
      if blocks != [] { BlockPaths(blocks, Strip(blocks[0].path)); }
    }
  }

  // ---- Any number of reworks in turn ----

  /** `base` with the first `n` overrides laid over it one after the other. */
  function OverlayAll<B, O>(overlay: (B, O) -> B, base: B, overrides: seq<O>, n: nat): B
    requires n <= |overrides|
  {
    if n == 0 then base else overlay(OverlayAll(overlay, base, overrides, n - 1), overrides[n - 1])
  }

  function Overlay(rules: Rules): (Value, Value) -> Value {
    (base, override) => OverlayCodeArtifact(rules, base, override).0
  }

  /** The source an override has for a path, if the override passes the contract. */
  function Supplied(rules: Rules, override: Value, path: FileKey): Option<Source> {
    match OverrideFiles(rules, override)
    case Some(files) => Get(files, path)
    case None => None
  }

  /** The source a base has for a path. */
  function SourceIn(rules: Rules, base: Value, path: FileKey): Option<Source> {
    match AsFileMap(rules, base)
    case Some(files) => Get(files, path)
    case None => None
  }

  /** What the last of the first `n` overrides that supplies anything supplies, else `default`. */
  function LastSupplied<O, T>(default: Option<T>, supplied: O -> Option<T>, overrides: seq<O>, n: nat): Option<T>
    requires n <= |overrides|
  {
    if n == 0 then default
    else if supplied(overrides[n - 1]).Some? then supplied(overrides[n - 1])
    else LastSupplied(default, supplied, overrides, n - 1)
  }

  lemma {:induction false} MergedIsFileMap(rules: Rules, a: FileMap, b: FileMap)
    requires a != [] && AllText(a) && AllText(b)
    ensures AsFileMap(rules, Files(Merge(a, b))) == Some(Merge(a, b))
  {
    MergeNotEmpty(a, b);
    forall file | file in Merge(a, b) ensures file.key.PathKey? && file.value.SourceText? { MergeItem(a, b, file); }
  }

  lemma {:induction false} FileMapIsText(rules: Rules, value: Value)
    requires AsFileMap(rules, value).Some?
    ensures AllText(AsFileMap(rules, value).value) && AsFileMap(rules, value).value != []
  {
    if value.Payload? {
      BlockFilesAreText(rules.blocks(Slice(Strip(value.text), 0, MAX_ARTIFACT_LENGTH)));
    }
  }

  /** The overlay of one override, seen as a change of file maps; a base that is no file map has none. */
  lemma {:induction false} OverlayStep(rules: Rules, base: Value, override: Value, path: FileKey)
    ensures var (result, applied) := OverlayCodeArtifact(rules, base, override);
            && (applied <==> ValueAccepted(rules, override))
            && (AsFileMap(rules, result).Some? <==> applied || AsFileMap(rules, base).Some?)
            && (!applied ==> result == base)
            && SourceIn(rules, result, path)
               == (if Supplied(rules, override, path).Some? then Supplied(rules, override, path)
                   else SourceIn(rules, base, path))
  {
    AppliedFilesAreValidated(rules, override);
    match OverrideFiles(rules, override)
    case None =>
    case Some(files) =>
      FileMapIsText(rules, override);
      match AsFileMap(rules, base) {
        case None => assert AsFileMap(rules, Files(files)) == Some(files);
        case Some(baseFiles) =>
          FileMapIsText(rules, base);
          MergedIsFileMap(rules, baseFiles, files);
          GetMerge(baseFiles, files, path);
      }
  }

  lemma {:induction false} OverlayAllSources<B(!new), O(!new), T>(overlay: (B, O) -> B, source: B -> Option<T>,
                                                                 supplied: O -> Option<T>, base: B, overrides: seq<O>,
                                                                 n: nat)
    requires n <= |overrides|
    requires forall b, o :: source(overlay(b, o)) == if supplied(o).Some? then supplied(o) else source(b)
    ensures source(OverlayAll(overlay, base, overrides, n)) == LastSupplied(source(base), supplied, overrides, n)
  {
    if n != 0 { OverlayAllSources(overlay, source, supplied, base, overrides, n - 1); }
  }

  /** After any list of overrides, a path has its source from the last override that passes the
      contract and contains the path, and otherwise still from the base, whatever the base is. */
  lemma {:induction false} LastPassingOverrideWins(rules: Rules, base: Value, overrides: seq<Value>, n: nat,
                                                   path: FileKey)
    requires n <= |overrides|
    ensures SourceIn(rules, OverlayAll(Overlay(rules), base, overrides, n), path)
            == LastSupplied(SourceIn(rules, base, path), o => Supplied(rules, o, path), overrides, n)
  {
    var source := b => SourceIn(rules, b, path);
    var supplied := o => Supplied(rules, o, path);
    var overlay := Overlay(rules);
    forall b, o ensures source(overlay(b, o)) == if supplied(o).Some? then supplied(o) else source(b) {
      OverlayStep(rules, b, o, path);
    }
    OverlayAllSources(overlay, source, supplied, base, overrides, n);
  }

  lemma {:induction false} OverlayAllReaches<B(!new), O(!new)>(overlay: (B, O) -> B, isMap: B -> bool,
                                                               passes: O -> bool, base: B, overrides: seq<O>, n: nat)
    requires n <= |overrides|
    requires forall b, o :: isMap(overlay(b, o)) <==> passes(o) || isMap(b)
    ensures isMap(OverlayAll(overlay, base, overrides, n))
            <==> isMap(base) || exists i | 0 <= i < n :: passes(overrides[i])
  {
    if n != 0 { OverlayAllReaches(overlay, isMap, passes, base, overrides, n - 1); }
  }

  /** The outcome is a file map exactly when the base is one or some override passes the contract. */
  lemma {:induction false} OutcomeIsFileMap(rules: Rules, base: Value, overrides: seq<Value>, n: nat)
    requires n <= |overrides|
    ensures AsFileMap(rules, OverlayAll(Overlay(rules), base, overrides, n)).Some?
            <==> AsFileMap(rules, base).Some? || exists i | 0 <= i < n :: OverrideFiles(rules, overrides[i]).Some?
  {
    var isMap := b => AsFileMap(rules, b).Some?;
    var passes := o => OverrideFiles(rules, o).Some?;
    var overlay := Overlay(rules);
    forall b, o ensures isMap(overlay(b, o)) <==> passes(o) || isMap(b) {
      OverlayStep(rules, b, o, PathKey(""));
      AppliedFilesAreValidated(rules, o);
    }
    OverlayAllReaches(overlay, isMap, passes, base, overrides, n);
  }

  /** The last supplier decides ... */
  lemma {:induction false} LastSupplierDecides<O, T>(default: Option<T>, supplied: O -> Option<T>, overrides: seq<O>,
                                                     n: nat, i: nat)
    requires i < n <= |overrides| && supplied(overrides[i]).Some?
    requires forall j | i < j < n :: supplied(overrides[j]).None?
    ensures LastSupplied(default, supplied, overrides, n) == supplied(overrides[i])
  {
    if i != n - 1 { LastSupplierDecides(default, supplied, overrides, n - 1, i); }
  }

  /** ... and without one the default stands. */
  lemma {:induction false} NoSupplier<O, T>(default: Option<T>, supplied: O -> Option<T>, overrides: seq<O>, n: nat)
    requires n <= |overrides|
    ensures (forall j | 0 <= j < n :: supplied(overrides[j]).None?)
            ==> LastSupplied(default, supplied, overrides, n) == default
    ensures default.Some? ==> LastSupplied(default, supplied, overrides, n).Some?
  {
    if n != 0 { NoSupplier(default, supplied, overrides, n - 1); }
  }

  /** No file of the base is ever lost. */
  lemma {:induction false} BaseFilesSurvive(rules: Rules, base: Value, overrides: seq<Value>, n: nat, path: FileKey)
    requires n <= |overrides| && SourceIn(rules, base, path).Some?
    ensures SourceIn(rules, OverlayAll(Overlay(rules), base, overrides, n), path).Some?
  {
    LastPassingOverrideWins(rules, base, overrides, n, path);
    NoSupplier(SourceIn(rules, base, path), o => Supplied(rules, o, path), overrides, n);
  }

  /** Overrides that fail the contract might as well not be there. */
  lemma {:induction false} RejectedChangeNothing(rules: Rules, base: Value, overrides: seq<Value>, n: nat)
    requires n <= |overrides|
    requires forall override | override in overrides :: !ValueAccepted(rules, override)
    ensures OverlayAll(Overlay(rules), base, overrides, n) == base
  {
    if n != 0 {
      RejectedChangeNothing(rules, base, overrides, n - 1);
      AppliedFilesAreValidated(rules, overrides[n - 1]);
    }
  }

  // ---- All slots of an artifact mapping ----

  function OrNull(value: Option<Value>): Value {
    match value case Some(v) => v case None => Value.Null
  }

  /** `dict.fromkeys([*base, *override])` */
  function Slots(base: Dict<string, Value>, override: Dict<string, Value>): seq<string> {
    Dedup(Keys(base) + Keys(override))
  }

  function SlotOverlay(rules: Rules, base: Dict<string, Value>, override: Dict<string, Value>, slot: string)
    : (Value, bool)
  {
    OverlayCodeArtifact(rules, OrNull(Get(base, slot)), OrNull(Get(override, slot)))
  }

  /** The slots among the first `n` to which an override was applied, in order. */
  function Selected<V>(slots: seq<string>, overlay: string -> (V, bool), n: nat): seq<string>
    requires n <= |slots|
  {
    if n == 0 then []
    else Selected(slots, overlay, n - 1) + if overlay(slots[n - 1]).1 then [slots[n - 1]] else []
  }

  /** `merged` has the overlay of each of the first `n` slots, and no other slot. */
  ghost predicate Overlaid<V>(merged: Dict<string, V>, slots: seq<string>, overlay: string -> (V, bool), n: nat)
    requires n <= |slots|
  {
    && Keys(merged) == slots[..n]
    && forall i | 0 <= i < n :: Get(merged, slots[i]) == Some(overlay(slots[i]).0)
  }

  lemma {:induction false} OverlaidStep<V>(merged: Dict<string, V>, slots: seq<string>, overlay: string -> (V, bool),
                                           n: nat)
    requires n < |slots| && NoDuplicates(slots) && Overlaid(merged, slots, overlay, n)
    ensures Overlaid(Put(merged, slots[n], overlay(slots[n]).0), slots, overlay, n + 1)
  {
    var slot, value := slots[n], overlay(slots[n]).0;
    assert slots[..n + 1] == slots[..n] + [slot];
    assert slot !in slots[..n];
    PutKeys(merged, slot, value);
    HasKey(merged, slot);
    forall i | 0 <= i < n + 1 ensures Get(Put(merged, slot, value), slots[i]) == Some(overlay(slots[i]).0) {
      GetPut(merged, slot, value, slots[i]);
    }
  }

  /** What the overlay of two mappings holds under a slot: the base's own value if the override's was not
      applied, and for each path the source that the override supplies, else the one the base has. */
  ghost predicate SlotHolds(rules: Rules, base: Value, override: Value, applied: bool, value: Value) {
    && (!applied ==> value == base)
    && forall path ::
         SourceIn(rules, value, path)
         == if Supplied(rules, override, path).Some? then Supplied(rules, override, path)
            else SourceIn(rules, base, path)
  }

  lemma {:induction false} SlotIsOverlaid(rules: Rules, base: Dict<string, Value>, override: Dict<string, Value>,
                                          slot: string)
    ensures var (value, applied) := SlotOverlay(rules, base, override, slot);
            SlotHolds(rules, if Has(base, slot) then Get(base, slot).value else Value.Null,
                      if Has(override, slot) then Get(override, slot).value else Value.Null, applied, value)
  {
    var (value, applied) := SlotOverlay(rules, base, override, slot);
    forall path
      ensures SourceIn(rules, value, path)
              == if Supplied(rules, OrNull(Get(override, slot)), path).Some? then
                   Supplied(rules, OrNull(Get(override, slot)), path)
                 else SourceIn(rules, OrNull(Get(base, slot)), path)
    {
      OverlayStep(rules, OrNull(Get(base, slot)), OrNull(Get(override, slot)), path);
    }
    OverlayStep(rules, OrNull(Get(base, slot)), OrNull(Get(override, slot)), PathKey(""));
  }

  /** The slots are those of the base, in their order, and then the others of the override. */
  lemma {:induction false} SlotsAreBoth(base: Dict<string, Value>, override: Dict<string, Value>, slot: string)
    ensures NoDuplicates(Slots(base, override))
    ensures IsDict(base) ==> Keys(base) <= Slots(base, override)
    ensures slot in Slots(base, override) <==> Has(base, slot) || Has(override, slot)
  {
    DedupIsDistinct(Keys(base) + Keys(override));
    if IsDict(base) { DedupPrefix(Keys(base), Keys(override)); }
    HasKey(base, slot);
    HasKey(override, slot);
  }

  /** `overlay_code_artifacts` */
  method OverlayCodeArtifacts(rules: Rules, base: Dict<string, Value>, override: Dict<string, Value>)
    returns (merged: Dict<string, Value>, overridden: seq<string>)
    ensures Keys(merged) == Slots(base, override)
    ensures forall slot | slot in Slots(base, override) ::
              Get(merged, slot) == Some(SlotOverlay(rules, base, override, slot).0)
    ensures overridden == Selected(Slots(base, override), slot => SlotOverlay(rules, base, override, slot),
                                   |Slots(base, override)|)
    ensures forall slot | slot in Keys(merged) ::
              && Has(merged, slot)
              && (slot in overridden <==> Has(override, slot) && ValueAccepted(rules, Get(override, slot).value))
              && SlotHolds(rules, if Has(base, slot) then Get(base, slot).value else Value.Null,
                           if Has(override, slot) then Get(override, slot).value else Value.Null,
                           slot in overridden, Get(merged, slot).value)
  {
    var slots, overlay := Slots(base, override), slot => SlotOverlay(rules, base, override, slot);
    DedupIsDistinct(Keys(base) + Keys(override));
    merged, overridden := OverlaySlots(slots, overlay);
    forall slot | slot in slots
      ensures slot in overridden <==> Has(override, slot) && ValueAccepted(rules, Get(override, slot).value)
      ensures SlotHolds(rules, if Has(base, slot) then Get(base, slot).value else Value.Null,
                        if Has(override, slot) then Get(override, slot).value else Value.Null,
                        slot in overridden, Get(merged, slot).value)
    {
      assert slots[..|slots|] == slots;
      ReportedSlots(slots, overlay, |slots|, slot);
      AppliedSlots(rules, base, override, slot);
      SlotIsOverlaid(rules, base, override, slot);
    }
  }

  /** The loop over the slots. */
  method OverlaySlots<V>(slots: seq<string>, overlay: string -> (V, bool))
    returns (merged: Dict<string, V>, overridden: seq<string>)
    requires NoDuplicates(slots)
    ensures Keys(merged) == slots
    ensures forall slot | slot in slots :: Get(merged, slot) == Some(overlay(slot).0)
    ensures overridden == Selected(slots, overlay, |slots|)
  {
    merged, overridden := [], [];
    for n := 0 to |slots|
      invariant Overlaid(merged, slots, overlay, n)
      invariant overridden == Selected(slots, overlay, n)
    {
      var (value, applied) := overlay(slots[n]);
      OverlaidStep(merged, slots, overlay, n);
      merged := Put(merged, slots[n], value);
      if applied { overridden := overridden + [slots[n]]; }
    }
  }

  /** The slots reported are exactly those to which an override was applied. */
  lemma {:induction false} ReportedSlots<V>(slots: seq<string>, overlay: string -> (V, bool), n: nat, x: string)
    requires n <= |slots|
    ensures x in Selected(slots, overlay, n) <==> x in slots[..n] && overlay(x).1
  {
    if n != 0 {
      ReportedSlots(slots, overlay, n - 1, x);
      assert slots[..n] == slots[..n - 1] + [slots[n - 1]];
    }
  }

  lemma {:induction false} AppliedSlots(rules: Rules, base: Dict<string, Value>, override: Dict<string, Value>,
                                        slot: string)
    ensures SlotOverlay(rules, base, override, slot).1
            <==> Has(override, slot) && ValueAccepted(rules, Get(override, slot).value)
    ensures !Has(override, slot) ==> SlotOverlay(rules, base, override, slot) == (OrNull(Get(base, slot)), false)
  {
    AppliedFilesAreValidated(rules, OrNull(Get(override, slot)));
  }

  // ---- When the outcome satisfies the contract ----

  /** A value that is a dictionary holds no key twice. */
  ghost predicate DictIfFiles(value: Value) {
    value.Files? ==> IsDict(value.files)
  }

  lemma {:induction false} FileMapIsDict(rules: Rules, value: Value)
    requires AsFileMap(rules, value).Some? && DictIfFiles(value)
    ensures IsDict(AsFileMap(rules, value).value)
  {
    if value.Payload? {
      var blocks := rules.blocks(Slice(Strip(value.text), 0, MAX_ARTIFACT_LENGTH));
      FromItemsIsDict(BlockItems(blocks), |blocks|);
    }
  }

  /** In a merged map every file is one of `b`, or one of `a` that `b` does not replace. */
  lemma {:induction false} MergedFile(a: FileMap, b: FileMap, file: Item<FileKey, Source>)
    requires IsDict(a) && IsDict(b)
    ensures file in Merge(a, b) <==> file in b || (file in a && !Has(b, file.key))
  {
    MergeKeepsDict(a, b);
    ItemsAreLookups(a, file);
    ItemsAreLookups(b, file);
    ItemsAreLookups(Merge(a, b), file);
    GetMerge(a, b, file.key);
  }

  /** A merge with an accepted map is accepted exactly when the files it keeps of the other map are
      acceptable and the total is within the limit. */
  lemma {:induction false} MergeWithAccepted(rules: Rules, a: FileMap, b: FileMap)
    requires IsDict(a) && IsDict(b) && FilesAccepted(rules, b)
    ensures FilesAccepted(rules, Merge(a, b))
            <==> (forall file | file in a :: Has(b, file.key) || FileAccepted(rules, file.key, file.value))
                 && Total(Merge(a, b)) <= MAX_ARTIFACT_LENGTH
  {
    forall file ensures file in Merge(a, b) <==> file in b || (file in a && !Has(b, file.key)) {
      MergedFile(a, b, file);
    }
    MergedFile(a, b, b[0]);
  }

  /** Exactly when the overlaid artifact satisfies the contract, for payloads and file maps alike: an
      override that passes must leave only acceptable files of the base and a total within the limit; one
      that fails leaves the base to be judged by itself. */
  lemma {:induction false} OverlaidIsAccepted(rules: Rules, base: Value, override: Value)
    requires DictIfFiles(base) && DictIfFiles(override)
    ensures ValueAccepted(rules, OverlayCodeArtifact(rules, base, override).0)
            <==> match (OverrideFiles(rules, override), AsFileMap(rules, base))
                 case (None, _) => ValueAccepted(rules, base)
                 case (Some(_), None) => true
                 case (Some(files), Some(baseFiles)) =>
                   && (forall file | file in baseFiles ::
                         Has(files, file.key) || FileAccepted(rules, file.key, file.value))
                   && Total(Merge(baseFiles, files)) <= MAX_ARTIFACT_LENGTH
  {
    AppliedFilesAreValidated(rules, override);
    match (OverrideFiles(rules, override), AsFileMap(rules, base))
    case (Some(files), Some(baseFiles)) =>
      FileMapIsDict(rules, base);
      FileMapIsDict(rules, override);
      MergeWithAccepted(rules, baseFiles, files);
    case _ =>
  }

  /** On a base that satisfies the contract itself only the size is left to check. */
  lemma {:induction false} OverlaidOnAccepted(rules: Rules, base: Value, override: Value)
    requires DictIfFiles(base) && DictIfFiles(override)
    requires ValueAccepted(rules, base) && ValueAccepted(rules, override)
    ensures AsFileMap(rules, base).Some? && OverrideFiles(rules, override).Some?
    ensures var a, b := AsFileMap(rules, base).value, OverrideFiles(rules, override).value;
            && Total(Merge(a, b)) <= Total(a) + Total(b)
            && (ValueAccepted(rules, OverlayCodeArtifact(rules, base, override).0)
                <==> Total(Merge(a, b)) <= MAX_ARTIFACT_LENGTH)
  {
    AppliedFilesAreValidated(rules, base);
    AppliedFilesAreValidated(rules, override);
    MergeOfAccepted(rules, AsFileMap(rules, base).value, OverrideFiles(rules, override).value);
  }

  predicate SomePasses(rules: Rules, overrides: seq<Value>, n: nat)
    requires n <= |overrides|
  {
    exists i | 0 <= i < n :: OverrideFiles(rules, overrides[i]).Some?
  }

  lemma {:induction false} OverlayShape(rules: Rules, base: Value, override: Value)
    requires DictIfFiles(base) && DictIfFiles(override)
    ensures var outcome := OverlayCodeArtifact(rules, base, override).0;
            if OverrideFiles(rules, override).Some? then IsFileDict(outcome) else outcome == base
  {
    match OverrideFiles(rules, override)
    case None =>
    case Some(files) =>
      FileMapIsDict(rules, override);
      FileMapIsText(rules, override);
      match AsFileMap(rules, base) {
        case None =>
        case Some(baseFiles) =>
          FileMapIsDict(rules, base);
          FileMapIsText(rules, base);
          MergeKeepsDict(baseFiles, files);
          MergeNotEmpty(baseFiles, files);
      }
  }

  lemma {:induction false} OverlayAllShape<B(!new), O(!new)>(overlay: (B, O) -> B, sound: B -> bool, shaped: B -> bool,
                                                             fit: O -> bool, passes: O -> bool, base: B,
                                                             overrides: seq<O>, n: nat)
    requires n <= |overrides| && sound(base) && forall o | o in overrides :: fit(o)
    requires forall b, o | sound(b) && fit(o) ::
               var r := overlay(b, o); sound(r) && if passes(o) then shaped(r) else r == b
    ensures sound(OverlayAll(overlay, base, overrides, n))
    ensures if exists i | 0 <= i < n :: passes(overrides[i]) then shaped(OverlayAll(overlay, base, overrides, n))
            else OverlayAll(overlay, base, overrides, n) == base
  {
    if n != 0 {
      OverlayAllShape(overlay, sound, shaped, fit, passes, base, overrides, n - 1);
      assert overrides[n - 1] in overrides;
    }
  }

  ghost predicate IsFileDict(value: Value) {
    value.Files? && IsDict(value.files) && value.files != []
  }

  /** Every outcome of a list of overrides is the base, if none passes, or else a file map. */
  lemma {:induction false} OutcomeShape(rules: Rules, base: Value, overrides: seq<Value>, n: nat)
    requires n <= |overrides| && DictIfFiles(base) && forall o | o in overrides :: DictIfFiles(o)
    ensures var outcome := OverlayAll(Overlay(rules), base, overrides, n);
            if SomePasses(rules, overrides, n) then IsFileDict(outcome) else outcome == base
  {
    ghost var sound, shaped := v => DictIfFiles(v), v => IsFileDict(v);
    var passes := o => OverrideFiles(rules, o).Some?;
    var overlay := Overlay(rules);
    forall b, o | sound(b) && sound(o)
      ensures var r := overlay(b, o); sound(r) && if passes(o) then shaped(r) else r == b
    {
      OverlayShape(rules, b, o);
    }
    OverlayAllShape(overlay, sound, shaped, sound, passes, base, overrides, n);
  }

  /** Some override that passes supplies the path. */
  predicate SomeSupplies(rules: Rules, overrides: seq<Value>, n: nat, path: FileKey)
    requires n <= |overrides|
  {
    exists i | 0 <= i < n :: Supplied(rules, overrides[i], path).Some?
  }

  lemma {:induction false} LastSuppliedIs<O, T>(default: Option<T>, supplied: O -> Option<T>, overrides: seq<O>, n: nat)
    requires n <= |overrides|
    ensures var last := LastSupplied(default, supplied, overrides, n);
            || (last == default && forall i | 0 <= i < n :: supplied(overrides[i]).None?)
            || exists i | 0 <= i < n :: supplied(overrides[i]).Some? && last == supplied(overrides[i])
  {
    if n != 0 { LastSuppliedIs(default, supplied, overrides, n - 1); }
  }

  lemma {:induction false} SuppliedIsAccepted(rules: Rules, override: Value, path: FileKey)
    requires Supplied(rules, override, path).Some?
    ensures FileAccepted(rules, path, Supplied(rules, override, path).value)
  {
    AppliedFilesAreValidated(rules, override);
    var files := OverrideFiles(rules, override).value;
    LookupIsItem(files, path);
    var item := Item(path, Get(files, path).value);
    assert item in files && FileAccepted(rules, item.key, item.value);
  }

  /** What the outcome has for a path: a file that passes, or a file of the base that nobody supplies. */
  lemma {:induction false} OutcomeSource(rules: Rules, base: Value, overrides: seq<Value>, n: nat, path: FileKey)
    requires n <= |overrides|
    ensures var source := SourceIn(rules, OverlayAll(Overlay(rules), base, overrides, n), path);
            if SomeSupplies(rules, overrides, n, path) then source.Some? && FileAccepted(rules, path, source.value)
            else source == SourceIn(rules, base, path)
  {
    var supplied := o => Supplied(rules, o, path);
    LastPassingOverrideWins(rules, base, overrides, n, path);
    LastSuppliedIs(SourceIn(rules, base, path), supplied, overrides, n);
    if SomeSupplies(rules, overrides, n, path) {
      var i :| 0 <= i < n && supplied(overrides[i]).Some?
               && LastSupplied(SourceIn(rules, base, path), supplied, overrides, n) == supplied(overrides[i]);
      SuppliedIsAccepted(rules, overrides[i], path);
    }
  }

  /** A file of the base that no passing override replaces is acceptable as it is. */
  predicate KeptIsAcceptable(rules: Rules, base: Value, overrides: seq<Value>, n: nat, path: FileKey)
    requires n <= |overrides|
  {
    || SourceIn(rules, base, path).None?
    || SomeSupplies(rules, overrides, n, path)
    || FileAccepted(rules, path, SourceIn(rules, base, path).value)
  }

  predicate AcceptableAt(rules: Rules, files: FileMap, path: FileKey) {
    Get(files, path).None? || FileAccepted(rules, path, Get(files, path).value)
  }

  lemma {:induction false} OutcomeAt(rules: Rules, base: Value, overrides: seq<Value>, n: nat, files: FileMap,
                                     path: FileKey)
    requires n <= |overrides|
    requires AsFileMap(rules, OverlayAll(Overlay(rules), base, overrides, n)) == Some(files)
    ensures AcceptableAt(rules, files, path) <==> KeptIsAcceptable(rules, base, overrides, n, path)
  {
    OutcomeSource(rules, base, overrides, n, path);
    assert SourceIn(rules, OverlayAll(Overlay(rules), base, overrides, n), path) == Get(files, path);
  }

  /** Whether the files of a dictionary are acceptable can be seen from looking up its paths. */
  lemma {:induction false} AcceptedByLookup(rules: Rules, files: FileMap)
    requires IsDict(files)
    ensures AllFilesAccepted(rules, files) <==> forall path :: AcceptableAt(rules, files, path)
  {
    if AllFilesAccepted(rules, files) {
      forall path | Has(files, path) ensures AcceptableAt(rules, files, path) {
        LookupIsItem(files, path);
        var item := Item(path, Get(files, path).value);
        assert item in files && FileAccepted(rules, item.key, item.value);
      }
    }
    if forall path :: AcceptableAt(rules, files, path) {
      forall file | file in files ensures FileAccepted(rules, file.key, file.value) {
        ItemsAreLookups(files, file);
        assert AcceptableAt(rules, files, file.key);
      }
    }
  }

  /** Exactly when the outcome of any list of overrides satisfies the contract: when none passes, if the
      base does; otherwise if every file that is kept of the base is acceptable and the total of the
      outcome is within the limit. */
  lemma {:induction false} OutcomeIsAccepted(rules: Rules, base: Value, overrides: seq<Value>, n: nat)
    requires n <= |overrides| && DictIfFiles(base) && forall o | o in overrides :: DictIfFiles(o)
    ensures var outcome := OverlayAll(Overlay(rules), base, overrides, n);
            ValueAccepted(rules, outcome)
            <==> if SomePasses(rules, overrides, n) then
                   && (forall path :: KeptIsAcceptable(rules, base, overrides, n, path))
                   && Total(FilesIn(AsFileMap(rules, outcome))) <= MAX_ARTIFACT_LENGTH
                 else ValueAccepted(rules, base)
  {
    var outcome := OverlayAll(Overlay(rules), base, overrides, n);
    OutcomeShape(rules, base, overrides, n);
    if SomePasses(rules, overrides, n) {
      OutcomeIsFileMap(rules, base, overrides, n);
      var files := outcome.files;
      assert AsFileMap(rules, outcome) == Some(files);
      AcceptedIffKept(rules, base, overrides, n, files);
    }
  }

  lemma {:induction false} AcceptedIffKept(rules: Rules, base: Value, overrides: seq<Value>, n: nat, files: FileMap)
    requires n <= |overrides| && IsDict(files)
    requires AsFileMap(rules, OverlayAll(Overlay(rules), base, overrides, n)) == Some(files)
    ensures AllFilesAccepted(rules, files) <==> forall path :: KeptIsAcceptable(rules, base, overrides, n, path)
  {
    AcceptedByLookup(rules, files);
    forall path ensures AcceptableAt(rules, files, path) <==> KeptIsAcceptable(rules, base, overrides, n, path) {
      OutcomeAt(rules, base, overrides, n, files, path);
    }
  }

  /** The files of a value, none if it is no file map. */
  function FilesIn(files: Option<FileMap>): FileMap {
    match files case Some(f) => f case None => []
  }

  // ---- One place under several spellings ----

  /** The two keys name one file: they are equal, or are paths that lead to the same place below
      whatever base. */
  ghost predicate SamePlace(x: FileKey, y: FileKey) {
    || x == y
    || (x.PathKey? && y.PathKey?
        && forall base: seq<string> :: Resolve(base, ToSlashes(x.path)) == Resolve(base, ToSlashes(y.path)))
  }

  /** No file of the map is there twice, under two spellings of its path. */
  ghost predicate OnlyOnePlace(files: FileMap) {
    forall x, y | Has(files, x) && Has(files, y) && SamePlace(x, y) :: x == y
  }

  /** Accepted paths lead to one place just when they differ only in their slashes. */
  lemma {:induction false} SamePlaceIsSpelling(x: FileKey, y: FileKey)
    requires !UnsafeKey(x) && !UnsafeKey(y)
    ensures SamePlace(x, y) <==> ToSlashes(x.path) == ToSlashes(y.path)
  {
    SamePlaceOnlyUpToSlashes([], x.path, y.path);
    if ToSlashes(x.path) == ToSlashes(y.path) {
      forall base: seq<string> ensures Resolve(base, ToSlashes(x.path)) == Resolve(base, ToSlashes(y.path)) {}
    }
  }

  /** Some file of the one map lies at the place of a differently spelled file of the other. */
  ghost predicate Clashes(a: FileMap, b: FileMap) {
    exists x, y | Has(a, x) && Has(b, y) && SamePlace(x, y) :: x != y
  }

  /** The overlay goes by the text of a path. So every place has one file after an overlay exactly when
      that holds of the base and of the override and neither spells a place of the other differently. */
  lemma {:induction false} OnePlaceAfterOverlay(rules: Rules, base: Value, override: Value)
    ensures var a, b := FilesIn(AsFileMap(rules, base)), FilesIn(OverrideFiles(rules, override));
            OnlyOnePlace(FilesIn(AsFileMap(rules, OverlayCodeArtifact(rules, base, override).0)))
            <==> OnlyOnePlace(a) && OnlyOnePlace(b) && !Clashes(a, b)
  {
    var a, b := FilesIn(AsFileMap(rules, base)), FilesIn(OverrideFiles(rules, override));
    var merged := FilesIn(AsFileMap(rules, OverlayCodeArtifact(rules, base, override).0));
    forall x ensures Has(merged, x) <==> Has(a, x) || Has(b, x) { OverlayStep(rules, base, override, x); }
    OnePlaceInUnion(a, b, merged);
  }

  lemma {:induction false} OnePlaceInUnion(a: FileMap, b: FileMap, merged: FileMap)
    requires forall x :: Has(merged, x) <==> Has(a, x) || Has(b, x)
    ensures OnlyOnePlace(merged) <==> OnlyOnePlace(a) && OnlyOnePlace(b) && !Clashes(a, b)
  {
    if OnlyOnePlace(a) && OnlyOnePlace(b) && !Clashes(a, b) {
      forall x, y | Has(merged, x) && Has(merged, y) && SamePlace(x, y) ensures x == y {
        assert SamePlace(y, x);
      }
    }
  }

  const SLASHED := PathKey("a/b")
  const BACKSLASHED := PathKey("a\\b")

  /** Two accepted maps that clash: an override that spells the one path of the base with the other
      slash. The outcome has the file twice. */
  lemma {:induction false} SpellingsCoexist(rules: Rules, before: string, after: string)
    requires rules.casefold("a/b") == "a/b" && rules.casefold("a\\b") == "a\\b"
    requires |before| + |after| < 100 && !Blank(before) && !Blank(after)
    requires !rules.refusal(before) && !rules.refusal(after)
    ensures var p, q := [Item(SLASHED, SourceText(before))], [Item(BACKSLASHED, SourceText(after))];
            && ValueAccepted(rules, Files(p)) && ValueAccepted(rules, Files(q))
            && OverlayCodeArtifact(rules, Files(p), Files(q)).0 == Files(p + q)
            && SamePlace(SLASHED, BACKSLASHED) && !OnlyOnePlace(p + q)
  {
    PlainFileAccepted(rules, "a/b", before);
    PlainFileAccepted(rules, "a\\b", after);
    var p, q := [Item(SLASHED, SourceText(before))], [Item(BACKSLASHED, SourceText(after))];
    AppliedFilesAreValidated(rules, Files(q));
    AppliedFilesAreValidated(rules, Files(p));
    MergeOfTwo(Item(SLASHED, SourceText(before)), Item(BACKSLASHED, SourceText(after)));
    TwoSpellings();
  }

  lemma {:induction false} TwoSpellings()
    ensures SamePlace(SLASHED, BACKSLASHED)
  {
    PlainPathIsSafe("a/b");
    PlainPathIsSafe("a\\b");
    assert ToSlashes("a/b") == "a/b" == ToSlashes("a\\b");
    SamePlaceIsSpelling(SLASHED, BACKSLASHED);
  }

  lemma {:induction false} PlainFileAccepted(rules: Rules, path: string, text: string)
    requires path == "a/b" || path == "a\\b"
    requires rules.casefold(path) == path && !Blank(text) && |text| < 100 && !rules.refusal(text)
    ensures FilesAccepted(rules, [Item(PathKey(path), SourceText(text))])
  {
    PlainPathIsSafe(path);
    OneFileAccepted(rules, PathKey(path), SourceText(text));
  }

  lemma {:induction false} OneFileAccepted(rules: Rules, key: FileKey, source: Source)
    requires FileAccepted(rules, key, source) && FileSize(key, source) <= MAX_ARTIFACT_LENGTH
    ensures FilesAccepted(rules, [Item(key, source)])
  {
    var file := Item(key, source);
    assert [file][..0] == [];
    assert Total([file][..0]) == 0;
  }

  lemma {:induction false} MergeOfTwo(a: Item<FileKey, Source>, b: Item<FileKey, Source>)
    requires a.key != b.key
    ensures Merge([a], [b]) == [a] + [b]
    ensures Has([a] + [b], a.key) && Has([a] + [b], b.key)
  {
    assert [b][..0] == [];
    assert Merge([a], [b][..0]) == [a];
    HasKey([a] + [b], a.key);
    HasKey([a] + [b], b.key);
    assert ([a] + [b])[0].key == a.key && ([a] + [b])[1].key == b.key;
  }

  lemma {:induction false} PlainPathIsSafe(path: string)
    requires path == "a/b" || path == "a\\b"
    ensures SafeRelativePath(path)
  {
    PlainSegment("a");
    PlainSegment("b");
    assert Join(["b"]) == "b" && ["a", "b"][1..] == ["b"];
    assert Join(["a", "b"]) == "a" + ['/'] + "b";
    assert MadeOf(path, ["a", "b"]);
    AcceptedPaths(path);
  }

  lemma {:induction false} PlainSegment(part: string)
    requires part == "a" || part == "b"
    ensures '/' !in part && SegmentOk(part)
  {
    StemSplits(Lower(part));
  }
}
