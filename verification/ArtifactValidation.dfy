/** When an artifact value satisfies the code-artifact contract. */
module ArtifactValidation {
  import opened Dicts
  import opened Results
  import opened SafePaths
  import opened Text

  const MAX_ARTIFACT_LENGTH := 262144
  const PLACEHOLDER_SCAN_MAX_CHARS := 400
  const PLACEHOLDER_KEYS: set<string> := {"description", "error", "message", "note", "placeholder", "status"}

  datatype FileKey = PathKey(path: string) | OtherKey(id: int)

  datatype Source = SourceText(text: string) | OtherSource(id: int)

  type FileMap = Dict<FileKey, Source>

  datatype Value = Null | Files(files: FileMap) | Payload(text: string) | Other(id: int)

  /** One FILE/ENDFILE match: its place in the text and its two groups. */
  datatype Block = Block(start: nat, end: nat, path: string, source: string)

  /** The library calls the validator makes: case folding, the refusal-prose pattern and
      the matches of the FILE/ENDFILE pattern, in order. */
  datatype Rules = Rules(casefold: string -> string, refusal: string -> bool, blocks: string -> seq<Block>)

  datatype Code =
    | Missing | Empty | UnsafePath | PlaceholderObject | EmptySource | Placeholder
    | TooLarge | InvalidFormat | InvalidType

  datatype Diagnostic = Diagnostic(field: string, code: Code)

  function Report(field: string, code: Code, when: bool): seq<Diagnostic> {
    if when then [Diagnostic(field, code)] else []
  }

  predicate UnsafeKey(key: FileKey) {
    !key.PathKey? || !SafeRelativePath(key.path)
  }

  predicate EmptySourceText(source: Source) {
    !source.SourceText? || Blank(source.text)
  }

  predicate Refuses(rules: Rules, source: Source) {
    source.SourceText? && |source.text| <= PLACEHOLDER_SCAN_MAX_CHARS && rules.refusal(source.text)
  }

  /** The diagnostics one file of a file map gives rise to. */
  function FileReport(rules: Rules, field: string, key: FileKey, source: Source): seq<Diagnostic> {
    if UnsafeKey(key) then [Diagnostic(field, UnsafePath)]
    else
      Report(field, PlaceholderObject, rules.casefold(key.path) in PLACEHOLDER_KEYS)
      + (if EmptySourceText(source) then [Diagnostic(field, EmptySource)]
         else Report(field, Placeholder, Refuses(rules, source)))
  }

  function FilesReport(report: (FileKey, Source) -> seq<Diagnostic>, files: FileMap, n: nat): seq<Diagnostic>
    requires n <= |files|
  {
    if n == 0 then [] else FilesReport(report, files, n - 1) + report(files[n - 1].key, files[n - 1].value)
  }

  function FileSize(key: FileKey, source: Source): nat {
    (if key.PathKey? then |key.path| else 0) + (if source.SourceText? then |source.text| else 0)
  }

  /** Size of the first `n` files; the validator does not count files with unsafe paths. */
  function CountedSize(files: FileMap, n: nat): nat
    requires n <= |files|
  {
    if n == 0 then 0
    else
      CountedSize(files, n - 1)
      + if UnsafeKey(files[n - 1].key) then 0 else FileSize(files[n - 1].key, files[n - 1].value)
  }

  function MappingReport(rules: Rules, field: string, files: FileMap): seq<Diagnostic> {
    if files == [] then [Diagnostic(field, Empty)]
    else
      FilesReport((k, s) => FileReport(rules, field, k, s), files, |files|)
      + Report(field, TooLarge, CountedSize(files, |files|) > MAX_ARTIFACT_LENGTH)
  }

  /** `_mapping_diagnostics` */
  method MappingDiagnostics(rules: Rules, field: string, files: FileMap) returns (ds: seq<Diagnostic>)
    ensures ds == MappingReport(rules, field, files)
  {
    if files == [] { return [Diagnostic(field, Empty)]; }
    ds := [];
    var total := 0;
    var report := (k: FileKey, s: Source) => FileReport(rules, field, k, s);
    for n := 0 to |files|
      invariant ds == FilesReport(report, files, n)
      invariant total == CountedSize(files, n)
    {
      var Item(key, source) := files[n];
      ds := ds + report(key, source);
      if UnsafeKey(key) { continue; }
      total := total + FileSize(key, source);
    }
    if total > MAX_ARTIFACT_LENGTH {
      ds := ds + [Diagnostic(field, TooLarge)];
    }
  }

  // ---- What acceptance means for a file map ----

  predicate FileAccepted(rules: Rules, key: FileKey, source: Source) {
    && !UnsafeKey(key)
    && rules.casefold(key.path) !in PLACEHOLDER_KEYS
    && !EmptySourceText(source)
    && !Refuses(rules, source)
  }

  ghost predicate AllFilesAccepted(rules: Rules, files: FileMap) {
    forall file | file in files :: FileAccepted(rules, file.key, file.value)
  }

  /** Total length of all paths and sources. */
  function Total(files: FileMap): nat {
    if files == [] then 0
    else Total(files[..|files| - 1]) + FileSize(files[|files| - 1].key, files[|files| - 1].value)
  }

  ghost predicate FilesAccepted(rules: Rules, files: FileMap) {
    files != [] && AllFilesAccepted(rules, files) && Total(files) <= MAX_ARTIFACT_LENGTH
  }

  lemma {:induction false} FileReportEmpty(rules: Rules, field: string, key: FileKey, source: Source)
    ensures FileReport(rules, field, key, source) == [] <==> FileAccepted(rules, key, source)
  {
  }

  lemma {:induction false} FilesReportEmpty(report: (FileKey, Source) -> seq<Diagnostic>, files: FileMap, n: nat)
    requires n <= |files|
    ensures FilesReport(report, files, n) == [] <==> forall i | 0 <= i < n :: report(files[i].key, files[i].value) == []
  {
    if n != 0 { FilesReportEmpty(report, files, n - 1); }
  }

  lemma {:induction false} NoReportMeansAccepted(rules: Rules, field: string, files: FileMap)
    ensures FilesReport((k, s) => FileReport(rules, field, k, s), files, |files|) == []
            <==> AllFilesAccepted(rules, files)
  {
    var report := (k: FileKey, s: Source) => FileReport(rules, field, k, s);
    FilesReportEmpty(report, files, |files|);
    forall k, s ensures report(k, s) == [] <==> FileAccepted(rules, k, s) { FileReportEmpty(rules, field, k, s); }
    if AllFilesAccepted(rules, files) {
      assert forall i | 0 <= i < |files| :: files[i] in files;
    }
  }

  lemma {:induction false} CountsEverySafeFile(files: FileMap, n: nat)
    requires n <= |files|
    requires forall file | file in files :: !UnsafeKey(file.key)
    ensures CountedSize(files, n) == Total(files[..n])
  {
    if n != 0 {
      CountsEverySafeFile(files, n - 1);
      assert files[..n][..n - 1] == files[..n - 1];
      assert files[n - 1] in files;
    }
  }

  /** The validator's single pass accepts exactly the non-empty maps in which every file is
      acceptable by itself and the total length is within the limit. */
  lemma {:induction false} AcceptedFileMaps(rules: Rules, field: string, files: FileMap)
    ensures MappingReport(rules, field, files) == [] <==> FilesAccepted(rules, files)
  {
    NoReportMeansAccepted(rules, field, files);
    if AllFilesAccepted(rules, files) {
      assert forall file | file in files :: FileAccepted(rules, file.key, file.value);
      CountsEverySafeFile(files, |files|);
      assert files[..|files|] == files;
    }
  }

  // ---- FILE/ENDFILE payloads ----

  /** `text[from:to]` */
  function Slice(text: string, from: nat, to: nat): string {
    var hi := if to < |text| then to else |text|;
    if from <= hi then text[from..hi] else []
  }

  function GapStart(blocks: seq<Block>, i: nat): nat
    requires i <= |blocks|
  {
    if i == 0 then 0 else blocks[i - 1].end
  }

  /** The text between the blocks: gap `i` ends where block `i` starts, the last at the end of the text. */
  function Gap(text: string, blocks: seq<Block>, i: nat): string
    requires i <= |blocks|
  {
    Slice(text, GapStart(blocks, i), if i == |blocks| then |text| else blocks[i].start)
  }

  /** The first `n` gaps are blank. */
  predicate BlankGaps(text: string, blocks: seq<Block>, n: nat)
    requires n <= |blocks| + 1
  {
    n == 0 || (BlankGaps(text, blocks, n - 1) && Blank(Gap(text, blocks, n - 1)))
  }

  lemma {:induction false} BlankGapsFail(text: string, blocks: seq<Block>, n: nat, i: nat)
    requires i < n <= |blocks| + 1 && !Blank(Gap(text, blocks, i))
    ensures !BlankGaps(text, blocks, n)
  {
    if i != n - 1 { BlankGapsFail(text, blocks, n - 1, i); }
  }

  predicate Complete(text: string, blocks: seq<Block>) {
    blocks != [] && BlankGaps(text, blocks, |blocks| + 1)
  }

  /** Path and source of a block, as they are set in the file map. */
  function BlockItem(block: Block): Item<FileKey, Source> {
    Item(PathKey(Strip(block.path)), SourceText(block.source))
  }

  function BlockItems(blocks: seq<Block>): (items: seq<Item<FileKey, Source>>)
    ensures |items| == |blocks|
  {
    seq(|blocks|, i requires 0 <= i < |blocks| => BlockItem(blocks[i]))
  }

  function FilesOf(blocks: seq<Block>): FileMap {
    FromItems(BlockItems(blocks), |blocks|)
  }

  /** The file map of a payload has, for each path, the source of the last block with that path. */
  lemma {:induction false} LastBlockWins(blocks: seq<Block>, i: nat)
    requires i < |blocks|
    requires forall j | i < j < |blocks| :: Strip(blocks[j].path) != Strip(blocks[i].path)
    ensures Get(FilesOf(blocks), PathKey(Strip(blocks[i].path))) == Some(SourceText(blocks[i].source))
  {
    LastItemWins(BlockItems(blocks), |blocks|, i);
  }

  lemma {:induction false} BlockFilesAreText(blocks: seq<Block>)
    ensures forall file | file in FilesOf(blocks) :: file.key.PathKey? && file.value.SourceText?
    ensures blocks != [] ==> FilesOf(blocks) != []
  {
    forall file | file in FilesOf(blocks) ensures file.key.PathKey? && file.value.SourceText? {
      ItemWasSet(BlockItems(blocks), |blocks|, file);
    }
  }

  /** `_parse_complete_file_payload` */
  method ParseCompleteFilePayload(rules: Rules, text: string) returns (r: Option<FileMap>)
    ensures r == CompletePayload(rules, text)
  {
    var blocks := rules.blocks(text);
    if blocks == [] { return None; }
    var cursor := 0;
    var files: FileMap := [];
    ghost var items := BlockItems(blocks);
    for i := 0 to |blocks|
      invariant cursor == GapStart(blocks, i)
      invariant BlankGaps(text, blocks, i)
      invariant files == FromItems(items, i)
    {
      if !Blank(Slice(text, cursor, blocks[i].start)) {
        BlankGapsFail(text, blocks, |blocks| + 1, i);
        return None;
      }
      files := Put(files, PathKey(Strip(blocks[i].path)), SourceText(blocks[i].source));
      cursor := blocks[i].end;
    }
    if !Blank(Slice(text, cursor, |text|)) {
      BlankGapsFail(text, blocks, |blocks| + 1, |blocks|);
      return None;
    }
    r := Some(files);
  }

  /** The files of a payload that holds nothing but FILE blocks and white space. */
  function CompletePayload(rules: Rules, text: string): Option<FileMap> {
    var blocks := rules.blocks(text);
    if Complete(text, blocks) then Some(FilesOf(blocks)) else None
  }

  /** `extract_files_from_artifact`: the files of all blocks, whatever stands between them. */
  function ExtractFiles(rules: Rules, text: string): FileMap {
    FilesOf(rules.blocks(Slice(text, 0, MAX_ARTIFACT_LENGTH)))
  }

  // ---- Any artifact value ----

  function ValueReport(rules: Rules, field: string, value: Value): seq<Diagnostic> {
    match value
    case Null => [Diagnostic(field, Missing)]
    case Files(files) => MappingReport(rules, field, files)
    case Other(_) => [Diagnostic(field, InvalidType)]
    case Payload(text) =>
      var stripped := Strip(text);
      if stripped == [] then [Diagnostic(field, Empty)]
      else if |stripped| > MAX_ARTIFACT_LENGTH then [Diagnostic(field, TooLarge)]
      else match CompletePayload(rules, stripped)
        case Some(files) =>
          if files != [] then MappingReport(rules, field, files) else ProseReport(rules, field, stripped)
        case None => ProseReport(rules, field, stripped)
  }

  function ProseReport(rules: Rules, field: string, text: string): seq<Diagnostic> {
    [Diagnostic(field, if rules.refusal(text) then Placeholder else InvalidFormat)]
  }

  /** `validate_code_artifact` */
  method ValidateCodeArtifact(rules: Rules, field: string, value: Value) returns (ds: seq<Diagnostic>)
    ensures ds == ValueReport(rules, field, value)
  {
    match value
    case Null => ds := [Diagnostic(field, Missing)];
    case Files(files) => ds := MappingDiagnostics(rules, field, files);
    case Other(_) => ds := [Diagnostic(field, InvalidType)];
    case Payload(text) =>
      var stripped := Strip(text);
      if stripped == [] { return [Diagnostic(field, Empty)]; }
      if |stripped| > MAX_ARTIFACT_LENGTH { return [Diagnostic(field, TooLarge)]; }
      var files := ParseCompleteFilePayload(rules, stripped);
      if files.Some? && files.value != [] {
        ds := MappingDiagnostics(rules, field, files.value);
      } else {
        ds := [Diagnostic(field, if rules.refusal(stripped) then Placeholder else InvalidFormat)];
      }
  }

  /** The files of a value that satisfies the contract, if it does. */
  ghost predicate ValueAccepted(rules: Rules, value: Value) {
    match value
    case Null => false
    case Files(files) => FilesAccepted(rules, files)
    case Other(_) => false
    case Payload(text) =>
      var stripped := Strip(text);
      var blocks := rules.blocks(stripped);
      && !Blank(text)
      && |stripped| <= MAX_ARTIFACT_LENGTH
      && Complete(stripped, blocks)
      && FilesAccepted(rules, FilesOf(blocks))
  }

  /** A value passes under one field name just when it passes under any other: a file map on its
      own merits, a text as a complete payload whose files would pass as a map. */
  lemma {:induction false} AcceptedValues(rules: Rules, field: string, value: Value)
    ensures ValueReport(rules, field, value) == [] <==> ValueAccepted(rules, value)
  {
    match value
    case Files(files) => AcceptedFileMaps(rules, field, files);
    case Payload(text) =>
      StripBlank(text);
      var blocks := rules.blocks(Strip(text));
      AcceptedFileMaps(rules, field, FilesOf(blocks));
      BlockFilesAreText(blocks);
    case _ =>
  }

  // ---- Laying one accepted map over another ----

  lemma {:induction false} TotalAppend(files: FileMap, file: Item<FileKey, Source>)
    ensures Total(files + [file]) == Total(files) + FileSize(file.key, file.value)
  {
    assert (files + [file])[..|files|] == files;
  }

  lemma {:induction false} TotalOfPut(files: FileMap, k: FileKey, source: Source)
    ensures Total(Put(files, k, source))
            == Total(files) + FileSize(k, source)
               - match Get(files, k) case Some(was) => FileSize(k, was) case None => 0
  {
    TotalAppend(files, Item(k, source));
    if files != [] {
      var init, last := files[..|files| - 1], files[|files| - 1];
      TotalAppend(init, Item(k, source));
      TotalOfPut(init, k, source);
      TotalAppend(Put(init, k, source), last);
    }
  }

  lemma {:induction false} TotalOfMerge(a: FileMap, b: FileMap)
    ensures Total(Merge(a, b)) <= Total(a) + Total(b)
  {
    if b != [] {
      TotalOfMerge(a, b[..|b| - 1]);
      TotalOfPut(Merge(a, b[..|b| - 1]), b[|b| - 1].key, b[|b| - 1].value);
    }
  }

  lemma {:induction false} MergeItem(a: FileMap, b: FileMap, file: Item<FileKey, Source>)
    requires file in Merge(a, b)
    ensures file in a || file in b
  {
    if b != [] {
      var init, last := b[..|b| - 1], b[|b| - 1];
      PutItem(Merge(a, init), last.key, last.value, file);
      if file in Merge(a, init) { MergeItem(a, init, file); }
    }
  }

  lemma {:induction false} MergeNotEmpty(a: FileMap, b: FileMap)
    requires a != []
    ensures Merge(a, b) != []
  {
    if b != [] { MergeNotEmpty(a, b[..|b| - 1]); }
  }

  /** Merging never grows beyond the two totals together, and two accepted maps merge into
      an accepted map just when the merged total is within the limit. */
  lemma {:induction false} MergeOfAccepted(rules: Rules, a: FileMap, b: FileMap)
    requires FilesAccepted(rules, a) && FilesAccepted(rules, b)
    ensures Total(Merge(a, b)) <= Total(a) + Total(b)
    ensures FilesAccepted(rules, Merge(a, b)) <==> Total(Merge(a, b)) <= MAX_ARTIFACT_LENGTH
  {
    TotalOfMerge(a, b);
    MergeNotEmpty(a, b);
    forall file | file in Merge(a, b) ensures FileAccepted(rules, file.key, file.value) { MergeItem(a, b, file); }
  }

  // ---- What the validator looks at, in its own terms ----

  /** A file passes with a safe path that is no metadata key, and source text that is not blank and, when
      it is at most 400 characters long, no refusal. */
  lemma {:induction false} AcceptedFile(rules: Rules, key: FileKey, source: Source)
    ensures FileAccepted(rules, key, source)
            <==> && key.PathKey? && SafeRelativePath(key.path)
                 && rules.casefold(key.path) !in {"description", "error", "message", "note", "placeholder", "status"}
                 && source.SourceText? && !Blank(source.text)
                 && (|source.text| > 400 || !rules.refusal(source.text))
  {
    assert PLACEHOLDER_KEYS == {"description", "error", "message", "note", "placeholder", "status"};
  }

  /** What is reported about one file, under the field's name. */
  lemma {:induction false} FileCodes(rules: Rules, field: string, key: FileKey, source: Source, d: Diagnostic)
    ensures d in FileReport(rules, field, key, source)
            <==> d.field == field
                 && var safe := key.PathKey? && SafeRelativePath(key.path);
                    match d.code
                    case UnsafePath => !safe
                    case PlaceholderObject =>
                      safe && rules.casefold(key.path)
                              in {"description", "error", "message", "note", "placeholder", "status"}
                    case EmptySource => safe && !(source.SourceText? && !Blank(source.text))
                    case Placeholder =>
                      safe && source.SourceText? && !Blank(source.text) && |source.text| <= 400
                      && rules.refusal(source.text)
                    case _ => false
  {
  }

  /** Two things at most are reported about one file, and then the metadata key comes first. */
  lemma {:induction false} FileReportOrder(rules: Rules, field: string, key: FileKey, source: Source)
    ensures var ds := FileReport(rules, field, key, source);
            |ds| <= 1 || (|ds| == 2 && ds[0].code == PlaceholderObject && ds[1].code in {EmptySource, Placeholder})
  {
  }

  lemma {:induction false} FilesReportMember(report: (FileKey, Source) -> seq<Diagnostic>, files: FileMap, n: nat,
                                             d: Diagnostic)
    requires n <= |files|
    ensures d in FilesReport(report, files, n) <==> exists i | 0 <= i < n :: d in report(files[i].key, files[i].value)
  {
    if n != 0 { FilesReportMember(report, files, n - 1, d); }
  }

  /** The size of a file map: the characters of all its text paths and text sources. */
  lemma {:induction false} TotalCounts(files: FileMap, key: FileKey, source: Source)
    ensures Total([]) == 0
    ensures Total(files + [Item(key, source)])
            == Total(files) + (if key.PathKey? then |key.path| else 0)
               + (if source.SourceText? then |source.text| else 0)
  {
    TotalAppend(files, Item(key, source));
  }

  /** The size that the report goes by leaves out the files without a safe path. */
  lemma {:induction false} CountedSizeCounts(files: FileMap, n: nat)
    requires n < |files|
    ensures var Item(key, source) := files[n];
            CountedSize(files, 0) == 0
            && CountedSize(files, n + 1) - CountedSize(files, n)
               == if key.PathKey? && SafeRelativePath(key.path) then
                    |key.path| + (if source.SourceText? then |source.text| else 0)
                  else 0
  {
  }

  /** What is reported about a file map: emptiness, what is wrong with its files, and that the files with
      safe paths are too large. */
  lemma {:induction false} MappingCodes(rules: Rules, field: string, files: FileMap, d: Diagnostic)
    ensures d in MappingReport(rules, field, files)
            <==> || (files == [] && d == Diagnostic(field, Empty))
                 || (exists i | 0 <= i < |files| :: d in FileReport(rules, field, files[i].key, files[i].value))
                 || (files != [] && d == Diagnostic(field, TooLarge) && CountedSize(files, |files|) > 262144)
    ensures CountedSize(files, |files|) > 262144 ==>
              var ds := MappingReport(rules, field, files); ds[|ds| - 1] == Diagnostic(field, TooLarge)
  {
    FilesReportMember((k, s) => FileReport(rules, field, k, s), files, |files|, d);
  }

  /** Any other value is reported with one code. */
  lemma {:induction false} ValueCodes(rules: Rules, field: string, text: string, id: int)
    ensures ValueReport(rules, field, Null) == [Diagnostic(field, Missing)]
    ensures ValueReport(rules, field, Other(id)) == [Diagnostic(field, InvalidType)]
    ensures Blank(text) <==> ValueReport(rules, field, Payload(text)) == [Diagnostic(field, Empty)]
    ensures !Blank(text) && |Strip(text)| > 262144 ==>
              ValueReport(rules, field, Payload(text)) == [Diagnostic(field, TooLarge)]
    ensures !Blank(text) && |Strip(text)| <= 262144 && !Complete(Strip(text), rules.blocks(Strip(text))) ==>
              ValueReport(rules, field, Payload(text))
              == [Diagnostic(field, if rules.refusal(Strip(text)) then Placeholder else InvalidFormat)]
  {
    StripBlank(text);
    if !Blank(text) && |Strip(text)| <= 262144 {
      var blocks := rules.blocks(Strip(text));
      if Complete(Strip(text), blocks) {
        BlockFilesAreText(blocks);
        var d := Diagnostic(field, Empty);
        MappingCodes(rules, field, FilesOf(blocks), d);
        assert ValueReport(rules, field, Payload(text)) == MappingReport(rules, field, FilesOf(blocks));
        forall i | 0 <= i < |FilesOf(blocks)|
          ensures d !in FileReport(rules, field, FilesOf(blocks)[i].key, FilesOf(blocks)[i].value)
        {
          FileCodes(rules, field, FilesOf(blocks)[i].key, FilesOf(blocks)[i].value, d);
        }
      }
    }
  }

  /** The matches of a pattern in a text: within it, in order and apart from each other. */
  predicate Matches(text: string, blocks: seq<Block>) {
    && (forall i | 0 <= i < |blocks| :: blocks[i].start <= blocks[i].end <= |text|)
    && forall i | 0 < i < |blocks| :: blocks[i - 1].end <= blocks[i].start
  }

  predicate InBlock(blocks: seq<Block>, n: nat, k: nat)
    requires n <= |blocks|
  {
    exists i | 0 <= i < n :: blocks[i].start <= k < blocks[i].end
  }

  lemma {:induction false} EndsGrow(text: string, blocks: seq<Block>, i: nat, j: nat)
    requires Matches(text, blocks) && i <= j <= |blocks|
    ensures GapStart(blocks, i) <= GapStart(blocks, j) <= |text|
  {
    if i < j { EndsGrow(text, blocks, i, j - 1); }
  }

  lemma {:induction false} BlankGapsCover(text: string, blocks: seq<Block>, n: nat)
    requires Matches(text, blocks) && n <= |blocks|
    ensures BlankGaps(text, blocks, n)
            <==> forall k | 0 <= k < GapStart(blocks, n) && !InBlock(blocks, n, k) :: IsSpace(text[k])
  {
    EndsGrow(text, blocks, n, n);
    if n != 0 {
      BlankGapsCover(text, blocks, n - 1);
      EndsGrow(text, blocks, n - 1, n);
      var from, to := GapStart(blocks, n - 1), blocks[n - 1].start;
      BlankSlice(text, from, to);
      forall k | 0 <= k < from ensures InBlock(blocks, n, k) <==> InBlock(blocks, n - 1, k) {}
      forall k | from <= k < blocks[n - 1].end ensures InBlock(blocks, n, k) <==> to <= k {
        NotInEarlier(text, blocks, n - 1, k);
      }
    }
  }

  lemma {:induction false} NotInEarlier(text: string, blocks: seq<Block>, n: nat, k: nat)
    requires Matches(text, blocks) && n <= |blocks| && GapStart(blocks, n) <= k
    ensures !InBlock(blocks, n, k)
  {
    forall i | 0 <= i < n ensures blocks[i].end <= k { EndsGrow(text, blocks, i + 1, n); }
  }

  lemma {:induction false} BlankSlice(text: string, from: nat, to: nat)
    requires from <= to <= |text|
    ensures Blank(Slice(text, from, to)) <==> forall k | from <= k < to :: IsSpace(text[k])
  {
    var s := Slice(text, from, to);
    assert s == text[from..to];
    if Blank(s) {
      forall k | from <= k < to ensures IsSpace(text[k]) { assert s[k - from] in s; }
    }
  }

  /** A payload is complete just when it has a block and every character outside its blocks is white space. */
  lemma {:induction false} CompleteMeans(text: string, blocks: seq<Block>)
    requires Matches(text, blocks)
    ensures Complete(text, blocks)
            <==> blocks != [] && forall k | 0 <= k < |text| && !InBlock(blocks, |blocks|, k) :: IsSpace(text[k])
  {
    var n := |blocks|;
    BlankGapsCover(text, blocks, n);
    EndsGrow(text, blocks, n, n);
    BlankSlice(text, GapStart(blocks, n), |text|);
    forall k | GapStart(blocks, n) <= k < |text| ensures !InBlock(blocks, n, k) { NotInEarlier(text, blocks, n, k); }
  }

  /** A payload has a file exactly for the paths of its blocks, without the white space around them. */
  lemma {:induction false} BlockPaths(blocks: seq<Block>, path: string)
    ensures Has(FilesOf(blocks), PathKey(path)) <==> exists i | 0 <= i < |blocks| :: Strip(blocks[i].path) == path
  {
    var items := BlockItems(blocks);
    if Has(FilesOf(blocks), PathKey(path)) {
      LookupIsItem(FilesOf(blocks), PathKey(path));
      ItemWasSet(items, |blocks|, Item(PathKey(path), Get(FilesOf(blocks), PathKey(path)).value));
    }
    if i :| 0 <= i < |blocks| && Strip(blocks[i].path) == path {
      var j := LastBlock(blocks, i, |blocks|);
      LastBlockWins(blocks, j);
    }
  }

  lemma {:induction false} LastBlock(blocks: seq<Block>, i: nat, n: nat) returns (j: nat)
    requires i < n <= |blocks|
    ensures i <= j < n && Strip(blocks[j].path) == Strip(blocks[i].path)
    ensures forall k | j < k < n :: Strip(blocks[k].path) != Strip(blocks[i].path)
  {
    if Strip(blocks[n - 1].path) == Strip(blocks[i].path) { j := n - 1; } else { j := LastBlock(blocks, i, n - 1); }
  }

  /** The lenient extractor reads at most the first 262144 characters. */
  lemma {:induction false} ExtractsFromStart(rules: Rules, text: string)
    ensures ExtractFiles(rules, text) == FilesOf(rules.blocks(if |text| > 262144 then text[..262144] else text))
  {
    assert |text| <= 262144 ==> text[0..|text|] == text;
    assert |text| > 262144 ==> text[0..262144] == text[..262144];
  }
}
