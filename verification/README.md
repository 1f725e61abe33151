# Verified models of the tooling and artifact core

This project models six parts of the repository in Dafny and proves what they are for.

- **Response cache** (`CacheKeys`, `CacheState`, `ResponseCache`, `CacheRuns`, `LlmClient`). An index in memory sits
  over one entry file per key and over an index file that is saved now and then. The cache is a value (`CacheState`)
  and an object over a directory (`ResponseCache`); every method of the object is proved equal to the step on the value.
  Runs mix all operations with restarts, with writes that end early, half way or late, and with removals that fail.
  `LlmClient` puts `generate_text` on top: remote gate, dispatch, caching.
- **Artifact contracts** (`SafePaths`, `Claims`, `ContractParser`, `ArtifactValidation`, `ArtifactNormalization`,
  `ArtifactOverlay`). Parser, validator, normaliser and overlay of reworked files, with theorems that cross them.
- **Shared counters** (`CasProtocol`, `CasTorture`). Workers that persist counter deltas to one key by
  compare-and-swap, as a state machine over all interleavings, and the exact-sum experiment run on it.
- **Retry decorators** (`Retry`). Both loops against one description of what a retrying wrapper does.
- **Probe cache** (`ProbeCache`, `ModelProbe`). A session map of shared, mutable result objects over a file with time
  limits.
- **Evaluation gate and redaction** (`EvalGate`, `Redaction`). Criteria, thresholds and the median of live runs; the
  scrubbing of nested inventories as a noninterference theorem.

`Text`, `Results`, `Dicts` and `FileWrites` hold what these share: Python strings, options, insertion-ordered
dictionaries, and the ways a file write can end.

## What the proofs found

Where the code falls short of what its documentation says, or of what a caller would expect, the model follows the
code. Each point names the lemma that says exactly when this happens and, where the lemma itself does not show one, an
input at which it does.

- The exact-sum experiment is described as never losing an update. A save gives up after 8 lost swaps
  (`CasTorture.SaveCanBeAbandoned`), so the sum is exact in every interleaving if and only if at most 8 workers take
  part or nothing is recorded: `CasTorture.ExactIffRetriesSuffice`.
- A router that is created with counts in its stats file and then finds counts under the shared key drops its own
  (`CasProtocol.OwnCountsAreDropped`). Nothing is lost or counted twice if and only if no such router joins:
  `CasProtocol.NothingLostOrDoubled`.
- A key that holds an empty text can never be saved to, since the swap takes an expected empty text for a missing key:
  `CasProtocol.EmptyTextStays`; every other value is replaced by a save that nobody disturbs
  (`CasProtocol.UndisturbedSave`).
- Redaction does not look into a tuple, nor into a list that stands directly inside another list
  (`Redaction.UnwalkedSecretShows`). The output is independent of all secrets if and only if none of these holds a
  sensitive key: `Redaction.NonInterference`.
- Two requests can share a cache key: every request whose model or system text contains `||` or ends in a bar shares
  its key with another one of the same temperature and limit (`CacheKeys.InseparableRequestCollides`). A text can be
  read back if and only if neither part does that (`CacheKeys.DecodesIffSeparable`). Caching goes unnoticed, whatever
  the providers answer, if and only if no request shares its key with one that reaches a provider unless it makes the
  same call: `LlmClient.UnnoticedIffKeyedApart`.
- The cache is asked before the remote gate. A refused request is answered all the same, in some run, if and only if
  some request with its key has a reply to store (`LlmClient.RefusedYetAnswered`), which some providers make true if
  and only if such a request is routed to one (`LlmClient.RefusedYetAnsweredIffRouted`).
- The remote gate lets through every name that starts with `aitk:` or `ai-toolkit:`, while the dispatch has no adapter
  for these prefixes and goes by the words in the name. `LlmClient.GateStopsRemotes` says exactly which names are
  refused and which reach a remote adapter all the same.
- An invalidated response can come back after a restart: because its file could not be removed
  (`CacheRuns.StuckFileComesBack`), or because the invalidation did not find the entry in memory, as after a `get` has
  dropped it (`CacheRuns.DroppedEntryComesBack`). `CacheRuns.InvalidationIsFinal` is exact: it can if and only if the
  saved index lists a whole file that the call leaves in place. If restarts keep the settings, its entry must also be
  young enough at the time of the call: `CacheRuns.InvalidationIsFinalUnderSettings`.
- The time limits of probe results bind the file only. Within one session a result never expires:
  `ProbeCache.SessionProbesOnce`; `ProbeCache.CheckFollowsHistory` says exactly when a check probes.
- A forced filter can contradict the report that follows it (`ProbeCache.ForcedRepeatsDisagree`). They agree whatever
  the probes find if and only if no two models share a key: `ProbeCache.ForcedAgreesIffDistinct`.
- A write of the probe file that is cut short costs all results in it (`ProbeCache.CutShortForgets`). When all writes
  succeed, a session knows exactly the last probes: `ProbeCache.KnownIsLastProbed`.
- The verdict of a case takes the missing criteria from the median run alone, so they can decide it
  (`EvalGate.MissingCanDecide`); when all runs miss the same, one run cannot: `EvalGate.VerdictIsDamped`.
- The overlay goes by the text of a path, so two spellings of one path can both end up in the outcome
  (`ArtifactOverlay.SpellingsCoexist`). They do not if and only if base and override each spell every path one way and
  neither spells a path of the other differently: `ArtifactOverlay.OnePlaceAfterOverlay`.
- The Correctness criterion is not clamped: it lies in [0, 1] if and only if the success rate lies in [0, 100]:
  `EvalGate.CriteriaRange`.

## Model

| member | source | states |
|---|---|---|
| SafePaths.JoinSplit | agentic-workflows-v2/agentic_v2/artifact_contracts.py:197-201 | splitting a path at its slashes loses nothing |
| SafePaths.LandsAtOwnSegments | agentic-workflows-v2/agentic_v2/artifact_contracts.py:190-207 | a path lands at exactly its own segments below every base if and only if it is relative and has no empty, "." or ".." segment |
| SafePaths.SafePathStaysBelow | agentic-workflows-v2/agentic_v2/artifact_contracts.py:190-207 | an accepted path, resolved under any base, lands strictly below it at its own segments |
| SafePaths.SamePlaceOnlyUpToSlashes | agentic-workflows-v2/agentic_v2/artifact_contracts.py:190-207 | two accepted paths land in the same place if and only if they agree after turning backslashes into slashes |
| SafePaths.AcceptedPaths | agentic-workflows-v2/agentic_v2/artifact_contracts.py:190-207 | a path is accepted if and only if it has no colon, no control character and no white space at either end, and is made of segments between slashes of either kind, none of them empty, ending in a dot or a space, or a device name |
| SafePaths.DeviceByStem | agentic-workflows-v2/agentic_v2/artifact_contracts.py:38-40 | a segment is a device name if and only if what stands before its first dot is one, in any letter case |
| SafePaths.DeviceExamples | agentic-workflows-v2/agentic_v2/artifact_contracts.py:38-40 | names that are device names, with and without an ending and in mixed case |
| SafePaths.PortExamples | agentic-workflows-v2/agentic_v2/artifact_contracts.py:38-40 | port names from 1 to 9 are device names; port 0, port 10, longer and shorter words are not |
| SafePaths.DevicesIgnoreCase | agentic-workflows-v2/agentic_v2/artifact_contracts.py:38-40 | segments that differ in the case of letters alone are device names alike |
| Text.LowerIdentifiesCase | tools/llm/_redact.py:50-54 | lower-casing two texts gives the same if and only if they differ in the case of letters alone; redaction, remote gate and dispatch compare names this way |
| Text.StripIsCore | agentic-workflows-v2/agentic_v2/artifact_contracts.py:192 | stripping takes all white space off both ends of a text and nothing else |
| Text.SpaceTable | agentic-workflows-v2/agentic_v2/artifact_contracts.py:192 | the characters that count as white space, one by one |
| Text.ContainsMeans | tools/llm/llm_client.py:222-224 | a text contains another if and only if it is that text with something before and after it |
| Text.LowerIsLower | tools/llm/_redact.py:50-54 | lower case has no capitals and stays as it is when lowered again |
| ContractParser.ParseArtifactContracts | agentic-workflows-v2/agentic_v2/artifact_contracts.py:86-160 | the parse returns the table of all declarations in order when nothing is wrong, each item holding what its declaration says, else the first error in declaration order; no mapping is an error, nothing is an empty table |
| ContractParser.DeclarationMeans | agentic-workflows-v2/agentic_v2/artifact_contracts.py:108-159 | a declaration passes its checks if and only if its rows are of the allowed kinds and it does not alias itself; its contract is then required unless the mapping says `required: false`, and lists an alias if and only if its text is under `aliases` |
| ContractParser.DeclarationFaults | agentic-workflows-v2/agentic_v2/artifact_contracts.py:108-146 | which error a declaration that fails is reported with, in the order of the checks |
| ContractParser.ClaimNames | agentic-workflows-v2/agentic_v2/artifact_contracts.py:147-154 | the name loop makes the contract the owner of all its names, or reports the first that already has an owner, with that owner |
| ContractParser.ClaimsAreReal | agentic-workflows-v2/agentic_v2/artifact_contracts.py:147-154 | a reported collision names a contract of an earlier declaration that does claim the name |
| ContractParser.DedupIsDistinct | agentic-workflows-v2/agentic_v2/artifact_contracts.py:142 | de-duplicated aliases hold each alias once and no other |
| ContractParser.DedupGrows | agentic-workflows-v2/agentic_v2/artifact_contracts.py:142 | de-duplication keeps first occurrences in their order |
| ContractParser.AcceptsDistinctNames | agentic-workflows-v2/agentic_v2/artifact_contracts.py:104-160 | a mapping is accepted if and only if every declaration is well formed and no name, canonical or alias, is claimed twice in the whole table |
| ContractParser.OrderIndependent | agentic-workflows-v2/agentic_v2/artifact_contracts.py:104-160 | acceptance does not depend on the order of the declarations |
| ContractParser.SameTable | agentic-workflows-v2/agentic_v2/artifact_contracts.py:155-160 | reordered declarations give tables with the same contract under each name |
| ContractParser.ParsedNamesDisjoint | agentic-workflows-v2/agentic_v2/artifact_contracts.py:147-154 | in a parsed table every name belongs to one contract and is listed once |
| ContractParser.ParsedKinds | agentic-workflows-v2/agentic_v2/artifact_contracts.py:124-129 | every contract of a parsed table is of the supported kind |
| ContractParser.UnboundMeans | agentic-workflows-v2/agentic_v2/artifact_contracts.py:169-174 | a contract is reported as unbound if and only if its canonical name is not a declared key |
| ArtifactValidation.MappingDiagnostics | agentic-workflows-v2/agentic_v2/artifact_contracts.py:210-267 | the single pass reports exactly the diagnostics of each file in order, then the size diagnostic |
| ArtifactValidation.AcceptedFileMaps | agentic-workflows-v2/agentic_v2/artifact_contracts.py:210-267 | the pass reports nothing if and only if the map is not empty, each file is acceptable by itself and the total length is at most 262144 |
| ArtifactValidation.AcceptedFile | agentic-workflows-v2/agentic_v2/artifact_contracts.py:210-258 | one file passes if and only if its path is safe and no metadata key, and its source is text that is not blank and, up to 400 characters, no refusal |
| ArtifactValidation.FileCodes | agentic-workflows-v2/agentic_v2/artifact_contracts.py:222-257 | exactly which codes are reported about one file |
| ArtifactValidation.FileReportOrder | agentic-workflows-v2/agentic_v2/artifact_contracts.py:229-254 | at most two things are reported about one file, the metadata key first |
| ArtifactValidation.MappingCodes | agentic-workflows-v2/agentic_v2/artifact_contracts.py:210-267 | exactly what is reported about a file map; the size, of the files with safe paths, comes last |
| ArtifactValidation.TotalCounts | agentic-workflows-v2/agentic_v2/artifact_contracts.py:255-258 | the size of a file map is that of its text paths and text sources |
| ArtifactValidation.CountedSizeCounts | agentic-workflows-v2/agentic_v2/artifact_contracts.py:219-258 | the size that is reported leaves out the files without a safe path |
| ArtifactValidation.ParseCompleteFilePayload | agentic-workflows-v2/agentic_v2/artifact_contracts.py:270-293 | the cursor loop returns the files if and only if there are blocks and all text before, between and after them is blank |
| ArtifactValidation.CompleteMeans | agentic-workflows-v2/agentic_v2/artifact_contracts.py:270-293 | a payload is complete if and only if it has a block and every character outside its blocks is white space |
| ArtifactValidation.BlockPaths | agentic-workflows-v2/agentic_v2/artifact_contracts.py:284-293 | its files are exactly the stripped paths of its blocks |
| ArtifactValidation.ExtractsFromStart | agentic-workflows-v2/agentic_v2/engine/llm_output_parsing.py:938-956 | the lenient extractor reads at most the first 262144 characters |
| ArtifactValidation.LastBlockWins | agentic-workflows-v2/agentic_v2/artifact_contracts.py:284-293 | a path has the source of the last block that names it |
| ArtifactValidation.ValidateCodeArtifact | agentic-workflows-v2/agentic_v2/artifact_contracts.py:296-344 | each kind of value gets its diagnostics, in the order of the checks |
| ArtifactValidation.ValueCodes | agentic-workflows-v2/agentic_v2/artifact_contracts.py:296-344 | exactly which code a missing value, a value of another type, and a blank, long or incomplete text is reported with |
| ArtifactValidation.AcceptedValues | agentic-workflows-v2/agentic_v2/artifact_contracts.py:296-354 | a value passes, under any field name, if and only if it is an acceptable file map, or a text of bounded length that is a complete payload of an acceptable file map |
| ArtifactValidation.TotalOfPut | agentic-workflows-v2/agentic_v2/artifact_contracts.py:229-258 | setting one file changes the counted size by that file alone |
| ArtifactValidation.MergeOfAccepted | agentic-workflows-v2/agentic_v2/artifact_contracts.py:210-267 | one accepted map laid over another totals at most both together and is accepted if and only if it is within the limit |
| ArtifactNormalization.SelectCandidate | agentic-workflows-v2/agentic_v2/artifact_contracts.py:372-384 | the candidate loop finds the first passing name and, when there is none, all complaints |
| ArtifactNormalization.PromoteCandidates | agentic-workflows-v2/agentic_v2/artifact_contracts.py:368-396 | the contract loop promotes every chosen candidate and collects every problem in order |
| ArtifactNormalization.RemoveAliases | agentic-workflows-v2/agentic_v2/artifact_contracts.py:399-401 | the final loop removes every alias of every contract and nothing else |
| ArtifactNormalization.ValidateAndNormalizeArtifacts | agentic-workflows-v2/agentic_v2/artifact_contracts.py:357-402 | the whole normaliser, on any values and any table of supported kinds |
| ArtifactNormalization.FirstPassingIsFirst | agentic-workflows-v2/agentic_v2/artifact_contracts.py:372-384 | the chosen candidate passes, and no name before it is both present and passing |
| ArtifactNormalization.ChosenIsFirst | agentic-workflows-v2/agentic_v2/artifact_contracts.py:372-388 | the value promoted is that of the first candidate that is present and passes |
| ArtifactNormalization.SucceedsWhenSatisfied | agentic-workflows-v2/agentic_v2/artifact_contracts.py:371-398 | normalisation succeeds if and only if each contract has a passing candidate, or is optional with none present |
| ArtifactNormalization.ProblemsMean | agentic-workflows-v2/agentic_v2/artifact_contracts.py:371-396 | what is reported of a contract: nothing if a candidate passes, else the complaints about the candidates present, or, if none is, that a required artifact is missing |
| ArtifactNormalization.RefusalListsProblems | agentic-workflows-v2/agentic_v2/artifact_contracts.py:368-398 | a refusal lists the problems of all contracts and nothing else |
| ArtifactNormalization.NormalizedContents | agentic-workflows-v2/agentic_v2/artifact_contracts.py:357-402 | on success each canonical name has its first passing candidate, no alias is left and every other key is unchanged; needs disjoint names |
| ArtifactNormalization.CanonicalFieldSurvives | agentic-workflows-v2/agentic_v2/artifact_contracts.py:386-401 | for any table at all, a chosen canonical field is kept if and only if no contract uses its name as an alias, which is what the parser guarantees |
| ArtifactNormalization.CodeArtifactIgnoresName | agentic-workflows-v2/agentic_v2/artifact_contracts.py:296-354 | whether a value passes does not depend on the name it is found under |
| ArtifactNormalization.NormalizeIsIdempotent | agentic-workflows-v2/agentic_v2/artifact_contracts.py:357-402 | normalising a normalised result changes nothing, not even key order |
| ArtifactNormalization.NormalizedIsDict | agentic-workflows-v2/agentic_v2/artifact_contracts.py:357-402 | the normalised values hold no key twice |
| Dicts.PutInPlace | agentic-workflows-v2/agentic_v2/artifact_contracts.py:386-388 | setting a key that is there changes its value in place |
| Dicts.PopTakesOut | agentic-workflows-v2/agentic_v2/artifact_contracts.py:399-401 | popping a key takes out its item and leaves the others in order |
| ArtifactNormalization.ParsedContractsNormalize | agentic-workflows-v2/agentic_v2/artifact_contracts.py:86-402 | from declarations to values: with any accepted declarations, a successful normalisation has these contents and is idempotent |
| ArtifactNormalization.ExpectedOutputKeys | agentic-workflows-v2/agentic_v2/artifact_contracts.py:405-417 | the two nested loops give the declared outputs and all contract names, first occurrences only |
| ArtifactNormalization.ExpectedKeys | agentic-workflows-v2/agentic_v2/artifact_contracts.py:405-417 | that list has no duplicates, starts with the declared outputs in order and holds exactly these and the contract names |
| ArtifactNormalization.NormalizedKeysAreDeclared | agentic-workflows-v2/agentic_v2/artifact_contracts.py:163-174 | contracts that bind to declared outputs and values within the expected keys give normalised keys within the declared outputs |
| ArtifactOverlay.AppliedFilesAreValidated | agentic-workflows-v2/agentic_v2/artifact_overlay.py:24-67 | an override is applied if and only if it satisfies the contract, and the files applied are the ones validated |
| ArtifactOverlay.FileMapMeans | agentic-workflows-v2/agentic_v2/artifact_overlay.py:24-39 | which values are file maps and of which files: a dictionary that is not empty and holds nothing but text, a text with a FILE block among its first 262144 characters |
| ArtifactOverlay.OverlayStep | agentic-workflows-v2/agentic_v2/artifact_overlay.py:42-71 | one overlay on any base: each path comes from the override if it supplies it, else from the base; a rejected override leaves the base itself; the outcome is a file map if and only if the base is one or the override applies |
| ArtifactOverlay.LastPassingOverrideWins | agentic-workflows-v2/agentic_v2/artifact_overlay.py:53-71 | after any list of overrides on any base, each path has its source from the last passing override that contains it, else from the base |
| ArtifactOverlay.OutcomeIsFileMap | agentic-workflows-v2/agentic_v2/artifact_overlay.py:53-71 | that outcome is a file map if and only if the base is one or some override passes |
| ArtifactOverlay.LastSupplierDecides | agentic-workflows-v2/agentic_v2/artifact_overlay.py:53-71 | what "the last one" means: a supplier with none after it decides |
| ArtifactOverlay.BaseFilesSurvive | agentic-workflows-v2/agentic_v2/artifact_overlay.py:68-71 | no file of the base is ever lost |
| ArtifactOverlay.RejectedChangeNothing | agentic-workflows-v2/agentic_v2/artifact_overlay.py:53-63 | a list of rejected overrides changes nothing |
| ArtifactOverlay.OverlayCodeArtifacts | agentic-workflows-v2/agentic_v2/artifact_overlay.py:74-92 | every slot of both mappings; in each slot each path has the source that the accepted override of the slot supplies, else the one the base has there; a slot is reported if and only if its override is accepted, and one that is not reported holds the base's own value |
| ArtifactOverlay.SlotsAreBoth | agentic-workflows-v2/agentic_v2/artifact_overlay.py:86 | the slots are those of the base in their order, then the others of the override, each once |
| ArtifactOverlay.OverlaySlots | agentic-workflows-v2/agentic_v2/artifact_overlay.py:83-91 | the loop over distinct slots sets each of them once, to its overlay |
| ArtifactOverlay.ReportedSlots | agentic-workflows-v2/agentic_v2/artifact_overlay.py:83-92 | a slot is reported if and only if an override was applied to it |
| ArtifactOverlay.AppliedSlots | agentic-workflows-v2/agentic_v2/artifact_overlay.py:83-92 | a slot is overridden if and only if the override mapping has it with a value that satisfies the contract |
| ArtifactOverlay.OverlaidIsAccepted | agentic-workflows-v2/agentic_v2/artifact_overlay.py:42-71 | exactly when the outcome satisfies the contract, payloads included: the files kept of the base are acceptable and the total is within the limit, or the base alone is accepted when the override fails |
| ArtifactOverlay.OverlaidOnAccepted | agentic-workflows-v2/agentic_v2/artifact_overlay.py:42-71 | on an accepted base only the total is left to check, and it is at most both totals together |
| ArtifactOverlay.OutcomeIsAccepted | agentic-workflows-v2/agentic_v2/artifact_overlay.py:42-71 | exactly when the outcome of any list of overrides satisfies the contract: every file kept of the base is acceptable and the total is within the limit, or the base alone is accepted when no override passes |
| ArtifactOverlay.SamePlaceIsSpelling | agentic-workflows-v2/agentic_v2/artifact_contracts.py:190-207 | two accepted paths lead to one place below every base if and only if they differ only in their slashes |
| ArtifactOverlay.OnePlaceAfterOverlay | agentic-workflows-v2/agentic_v2/artifact_overlay.py:68-71 | for any base and override, each place has one file in the outcome if and only if that holds of both and neither spells a path of the other differently |
| ArtifactOverlay.SpellingsCoexist | agentic-workflows-v2/agentic_v2/artifact_overlay.py:68-71 | two accepted maps with a/b and a\b: the outcome has both, at one place |
| CasProtocol.MergeAddsDelta | agentic-workflows-v2/agentic_v2/models/redis_state.py:85-117 | a merge never lowers a counter, and adds exactly what was recorded since the baseline if and only if the counter is not behind it |
| CasProtocol.UndisturbedSave | agentic-workflows-v2/agentic_v2/models/redis_state.py:456-479 | a save that nobody disturbs writes the worker's own non-counter fields and adds each counter's gain since the baseline, which moves up to the counts saved; the one value it cannot replace is an empty text |
| CasProtocol.LostSwap | agentic-workflows-v2/agentic_v2/models/redis_state.py:424-489 | a swap is lost if and only if the key no longer holds what was read; it changes neither the key nor the worker's counts and baseline, and the eighth one ends the save |
| CasProtocol.StepsInOrder | agentic-workflows-v2/agentic_v2/models/redis_state.py:424-489 | recording raises one counter by one and touches nothing else, also during a save; the steps of a save come in their order |
| CasProtocol.EmptyTextStays | agentic-workflows-v2/agentic_v2/models/redis_state.py:49-63 | a key that holds an empty text keeps it in every run |
| CasProtocol.RunConserves | agentic-workflows-v2/agentic_v2/models/redis_state.py:424-489 | in every interleaving, from any baselines and with routers joining, the stored count grows by exactly what the baselines grow by, not counting those that joining routers start from |
| CasProtocol.RunBalances | agentic-workflows-v2/agentic_v2/models/smart_router.py:775-801 | in every run, stored plus pending plus dropped grows by exactly what is recorded and what joining routers bring |
| CasProtocol.NothingLostOrDoubled | agentic-workflows-v2/agentic_v2/models/smart_router.py:821-834 | stored plus pending grows by everything recorded and brought, per counter, whatever saves are lost or given up, if and only if no router with counts of its own joins a key that holds counts |
| CasProtocol.OwnCountsAreDropped | agentic-workflows-v2/agentic_v2/models/smart_router.py:821-834 | a router with one failure in its stats file joins a key that holds counts: the failure is neither stored nor pending |
| CasProtocol.JoiningIsNoRecording | agentic-workflows-v2/agentic_v2/models/smart_router.py:821-834 | a router that joins and saves without recording leaves the stored counts as they were: what it loaded is not persisted twice |
| CasProtocol.JoiningBringsOwn | agentic-workflows-v2/agentic_v2/models/smart_router.py:821-834 | where the key holds no counts, a router that joins and saves persists its own |
| CasTorture.ObservedIsWinnersSum | load/probe_redis_cas.py:79-131 | in every interleaving the counter is F times the number of workers whose save succeeded |
| CasTorture.NobodyGivesUp | agentic-workflows-v2/agentic_v2/models/redis_state.py:68-71 | with at most 8 workers no save is abandoned |
| CasTorture.ExactUpToRetries | load/probe_redis_cas.py:96-131 | with at most 8 workers the counter is exactly N times F once all are done |
| CasTorture.LostSwapsBound | load/probe_redis_cas.py:79-131 | at most N(N-1)/2 swaps are lost in all, in every interleaving and for any N |
| CasTorture.SaveCanBeAbandoned | agentic-workflows-v2/agentic_v2/models/redis_state.py:455-489 | with more than 8 workers some interleaving ends below N times F |
| CasTorture.ExactIffRetriesSuffice | load/probe_redis_cas.py:96-131 | the experiment is exact in every interleaving if and only if at most 8 workers take part or nothing is recorded |
| Retry.WithCappedRetry | tools/llm/probe_config.py:393-427 | the capped loop makes at most max_retries + 1 calls, all but the last failing retryably, sleeps the capped jittered delays, and ends with the first success or the last error |
| Retry.WithGeometricRetry | tools/core/tool_init.py:399-424 | the geometric loop does the same with max_attempts calls and geometrically growing delays |
| Retry.TraceIsUnique | tools/llm/probe_config.py:393-427 | that description determines calls, sleeps and ending completely |
| Retry.FinalRaiseUnreached | tools/llm/probe_config.py:426-427 | the raise after the loop is reached only when the loop may make no call at all |
| Retry.DecoratorsAgree | tools/core/tool_init.py:384-428 | with the same bound and the same retryable errors, two wrappers make the same calls to the same end on every outcome sequence |
| Retry.CappedAgreesWithGeometric | tools/core/tool_init.py:399-424 | the two decorators of the repository agree when max_attempts is max_retries + 1 in transient-only mode |
| Retry.CappedSleepBounds | tools/llm/probe_config.py:410-424 | total sleep lies between 0.8 and 1.2 times the sum of the plain delays |
| Retry.JitterSpans | tools/llm/probe_config.py:416-419 | jitter moves a delay linearly from 0.8 to 1.2 times itself |
| Retry.CapIsReached | tools/llm/probe_config.py:410-414 | for every positive base and every cap there is a first attempt at which the cap is reached |
| Retry.CappedClosedForm | tools/llm/probe_config.py:410-419 | the sum of plain delays is a power of two gain until the cap is hit, and grows by the cap from there |
| Retry.PlainDelaysSum | tools/llm/probe_config.py:410-419 | the sum for every positive base, every cap and any number of retries, with the attempt at which the cap is hit |
| Retry.ZeroBaseSum | tools/llm/probe_config.py:410-419 | the sum for a base of zero |
| Retry.ConstantSum | tools/llm/probe_config.py:411-414 | without the exponential every delay is the base, whatever the cap |
| Retry.GeometricSleep | tools/core/tool_init.py:402-422 | after k retries the geometric decorator has slept delay times (backoff^k - 1) / (backoff - 1) |
| Redaction.MarkersDecide | tools/llm/_redact.py:19-54 | a key is sensitive if and only if it contains, in lower case, one of six markers; the list of exact names adds nothing |
| Redaction.SensitivityIgnoresCase | tools/llm/_redact.py:50-54 | keys that differ in the case of letters alone are equally sensitive |
| Redaction.FieldIsMaskedOrWalked | tools/llm/_redact.py:57-77 | a sensitive field, and any field ten levels down or more, becomes the marker text whatever its value; in every other one exactly the dictionaries, also directly in a list, are redacted one level further down |
| Redaction.SensitiveInside | tools/llm/_redact.py:36-54 | a sensitive name stays sensitive under any prefix and suffix |
| Redaction.RedactInventory | tools/llm/_redact.py:57-77 | the walk returns the specified redaction, of which the other theorems speak |
| Redaction.RedactIsIdempotent | tools/llm/_redact.py:57-77 | redacting twice is redacting once |
| Redaction.OutputShowsVisible | tools/llm/_redact.py:57-77 | two inputs have the same output if and only if they agree on everything the walk shows |
| Redaction.KeysSurvive | tools/llm/_redact.py:64-77 | every walked dictionary keeps its keys, in order |
| Redaction.NonInterference | tools/llm/_redact.py:57-77 | the output is independent of all values under sensitive keys or beyond the depth limit if and only if no tuple, and no list directly inside a list, holds such a key |
| Redaction.UnwalkedSecretShows | tools/llm/_redact.py:68-76 | two inventories, one with a list in a list and one with a tuple, that come out unchanged with a secret in them |
| Redaction.OutputScrubbed | tools/llm/_redact.py:57-77 | every sensitive key of the output is masked if and only if it already was in each tuple and in each list directly inside a list |
| EvalGate.DerivesUnlessMalformed | scripts/eval_gate.py:150-213 | criteria are derived if and only if expectations and steps are well formed and no number is unusable |
| EvalGate.CorrectnessIsRate | scripts/eval_gate.py:174-175 | Correctness is the success rate out of a hundred |
| EvalGate.CompletenessShare | scripts/eval_gate.py:177-196 | Completeness is the share of the expected names, by default five, that have a step that succeeded |
| EvalGate.CodeQualityShare | scripts/eval_gate.py:198-207 | Code Quality is the share of five metrics that the first step named `parse_code` has |
| EvalGate.FirstNamedIsFirst | scripts/eval_gate.py:198 | the step looked at is the first of that name, if there is one |
| EvalGate.QualityEfficiencySecurity | scripts/eval_gate.py:209-219 | Efficiency falls by the same share with each retry down to zero beyond the allowed ones; Security is lost with the first step that leaks an error type |
| EvalGate.CriteriaRange | scripts/eval_gate.py:150-227 | all criteria lie in [0, 1], Correctness if and only if the success rate lies in [0, 100] |
| EvalGate.CodeQualityRange | scripts/eval_gate.py:197-207 | code quality lies in [0, 1], and is 1 if and only if the parse step reports every required metric |
| EvalGate.EfficiencyRange | scripts/eval_gate.py:209-214 | no retries score 1, retries at or beyond the budget score 0 |
| EvalGate.FullMarks | scripts/eval_gate.py:150-227 | full marks in every criterion if and only if the run is spotless |
| EvalGate.ThresholdNeverLoosened | scripts/eval_gate.py:243-254 | a score meets the resolved threshold if and only if it meets both the case's and the global one |
| EvalGate.ThresholdErrors | scripts/eval_gate.py:140-254 | there is no threshold if and only if one of the two bars that apply is no number from 0 to 1 |
| EvalGate.MedianIsMajority | scripts/eval_gate.py:488-511 | with an odd number of runs the median is one of the scores, and meets a threshold if and only if a strict majority does |
| EvalGate.MedianOfPair | scripts/eval_gate.py:491 | the median of two scores lies half way between them |
| EvalGate.OutlierIsDamped | scripts/eval_gate.py:488-491 | no score of one run moves the median across a threshold if and only if the other runs are not split evenly by it |
| EvalGate.VerdictIsDamped | scripts/eval_gate.py:488-511 | when all runs miss the same criteria and the others are not split evenly, no outcome of one run changes the verdict |
| EvalGate.MissingCanDecide | scripts/eval_gate.py:498-511 | three runs of one score whose verdict changes with the missing criteria of the first alone |
| EvalGate.ScoreCaseLive | scripts/eval_gate.py:402-514 | a case is judged if and only if it is well formed and all three runs complete; the verdict is that of the first run with the median score, with its missing criteria |
| EvalGate.FindScore | scripts/eval_gate.py:493-500 | the run reported beside the median is the first with that score |
| EvalGate.PassNeedsMajority | scripts/eval_gate.py:488-511 | the median clears the threshold if and only if two of three runs clear every bar that applies |
| EvalGate.ReportAndExit | scripts/eval_gate.py:533-574 | the exit code is 0 if and only if every case passed |
| CacheKeys.Find | tools/core/response_cache.py:97 | the first place of the separator, none before it |
| CacheKeys.DecodesIffSeparable | tools/core/response_cache.py:92-98 | the combined text gives model, system and prompt back, for any prompt, if and only if model and system are separable |
| CacheKeys.CachePromptInjective | tools/core/cache.py:90-96 | prompt, temperature and limit can be read off the extended prompt |
| CacheKeys.KeyTextInjective | tools/core/cache.py:119-124 | equal key texts of well-formed requests mean equal requests |
| LlmClient.CacheKeyText | tools/core/cache.py:90-96 | the key text of a request spelled out; a missing system text counts as an empty one |
| CacheKeys.CombinedTextDecodes | tools/core/response_cache.py:97 | every combined text can be read back, as one triple with separable parts, which has that text |
| CacheKeys.InseparableCollides | tools/core/response_cache.py:97 | every inseparable model and system text has, for every prompt, a different triple with the same text |
| CacheKeys.InseparableRequestCollides | tools/core/cache.py:90-96 | every request of the function API with an inseparable model or system text shares its key text with a different one of the same temperature and limit, with separable parts |
| CacheKeys.SeparatorInsideCollides | tools/core/response_cache.py:97 | a separator inside the model text gives a second request with the same key text |
| CacheKeys.TrailingBarCollides | tools/core/response_cache.py:97 | so does a bar at the end of the model text or of the system text |
| ResponseCache.Directory.WriteFile | tools/core/response_cache.py:264-267 | what an entry file holds after a write that succeeds, never starts, stops half way or fails at the end |
| ResponseCache.ResponseCache.constructor | tools/core/response_cache.py:116-146 | a new cache over a directory starts from the saved index, or from nothing when caching is off or the index file is missing or broken |
| ResponseCache.ResponseCache.Lookup | tools/core/response_cache.py:172-230 | `get`: result and whole new state, including expired entries, missing files, unreadable files and the counters |
| ResponseCache.ResponseCache.Store | tools/core/response_cache.py:232-281 | `set`: the file first, the index and the counter only when the write succeeded |
| ResponseCache.ResponseCache.SaveIndex | tools/core/response_cache.py:148-162 | `save`: the index file after each way a write can end |
| ResponseCache.ResponseCache.InvalidateEntry | tools/core/response_cache.py:283-305 | `invalidate`: whole new state, whether or not the file can be removed |
| ResponseCache.ResponseCache.ClearAll | tools/core/response_cache.py:307-334 | `clear`: whole new state, with any set of files left behind |
| ResponseCache.ResponseCache.CleanupExpired | tools/core/response_cache.py:336-363 | the clean-up loop drops exactly the expired keys and their removable files, and saves only if there were any |
| ResponseCache.ResponseCache.FindExpired | tools/core/response_cache.py:342-347 | the first loop collects exactly the expired keys |
| CacheState.GetMeans | tools/core/response_cache.py:172-230 | `get` answers if and only if the entry is known, not too old, and its file is there, readable and whole; it forgets exactly an entry that is too old or has no file |
| CacheState.SetMeans | tools/core/response_cache.py:232-281 | what `set` enters, counts and leaves in the file, for each way the write can end |
| CacheState.SaveMeans | tools/core/response_cache.py:148-162 | `save` writes the index and changes nothing else |
| CacheState.InvalidateMeans | tools/core/response_cache.py:283-305 | `invalidate` removes a known key from the index and, unless that fails, its file, and nothing else |
| CacheState.ClearMeans | tools/core/response_cache.py:307-334 | `clear` leaves no entry, no count, and exactly the files that could not be removed |
| CacheState.CleanupMeans | tools/core/response_cache.py:336-358 | a clean-up keeps exactly the entries that are not too old, and removes exactly the files of the others that can be removed |
| CacheState.CleanupCounts | tools/core/response_cache.py:359-363 | it returns how many entries went and saves the index only if some did |
| CacheState.RestartMeans | tools/core/response_cache.py:116-146 | a new cache object knows what the index file lists, if caching is on and the file can be read |
| CacheRuns.StepKeepsFresh | tools/core/response_cache.py:135-363 | every operation keeps: files hold the last complete writes, and neither index is ahead of them |
| CacheRuns.AnswersAreFresh | tools/core/response_cache.py:135-363 | over every run with restarts and failing writes, a returned response is the last one completely written for its key and no older than the time to live |
| CacheRuns.OnlySetWrites | tools/core/response_cache.py:172-363 | nothing but a `set` of the key puts anything new into its file |
| CacheRuns.InvalidationIsFinal | tools/core/response_cache.py:283-305 | for every state and both ends of the removal: no later `get` answers without a new `set`, across all runs, if and only if the saved index does not list a whole file that the call leaves in place |
| CacheRuns.InvalidationIsFinalAfter | tools/core/response_cache.py:283-305 | the same over runs on a clock that never runs backwards and begins at the call, with any settings at restarts |
| CacheRuns.InvalidationIsFinalUnderSettings | tools/core/response_cache.py:283-305 | over such runs whose restarts keep the settings: the response can come back if and only if it survives the call, caching is on and its saved entry is not too old at the call |
| CacheRuns.StuckFileComesBack | tools/core/response_cache.py:301-305 | a run in which an invalidated response is returned again because its file stayed |
| CacheRuns.DroppedEntryComesBack | tools/core/response_cache.py:293-297 | a run in which it is returned again because a `get` had dropped the entry from memory before the invalidation |
| CacheRuns.RefinesTimedMap | tools/core/response_cache.py:164-363 | without restarts and entry writes that fail part way, whatever else fails, `get` returns the last complete `set` not followed by `invalidate` or `clear` if and only if it is no older than the time to live |
| CacheRuns.HitsAndMissesAddUp | tools/core/response_cache.py:172-230 | over every run, hits plus misses equal the `get` calls of an enabled cache since the last `clear` or restart |
| CacheRuns.HitMeansAnswer | tools/core/response_cache.py:172-230 | a hit is counted if and only if a response is returned, a miss if and only if an enabled cache returns none |
| LlmClient.GateStopsRemotes | tools/llm/llm_client.py:191-286 | the gate refuses exactly the models whose dispatch would reach a remote adapter, except under a toolkit prefix |
| LlmClient.RouteMeans | tools/llm/llm_client.py:234-286 | what is called for a request: the adapter whose prefix starts the name, else that of the family word in it, gemini before claude before gpt, else none; the name goes whole but without its prefix to three hosted services, prompt and system text unchanged, temperature and limit to five adapters |
| LlmClient.DispatchIgnoresCase | tools/llm/llm_client.py:206-286 | names that differ in the case of letters alone are gated alike and go to the same adapter |
| LlmClient.GenerateText | tools/llm/llm_client.py:290-372 | `generate_text` on the cache object: the cache is asked before the gate, the call is the one `RouteMeans` describes, a reply is stored only if it is a non-empty text; reply and whole new state |
| LlmClient.RunIsTruthful | tools/llm/llm_client.py:345-365 | over every run each whole entry file holds the uncached reply to some request of its key, under the gate setting of that request |
| LlmClient.UnnoticedIffKeyedApart | tools/llm/llm_client.py:319-372 | caching is unnoticed for all providers, in every run and circumstance, if and only if no request shares its key with one that reaches a provider unless it makes the same call; the condition speaks of requests and gate settings alone |
| LlmClient.UnnoticedIffCompatible | tools/llm/llm_client.py:319-372 | for given providers: if and only if no two requests share a key without sharing the reply |
| LlmClient.RefusedYetAnswered | tools/llm/llm_client.py:319-345 | a request that the gate refuses is answered in some run if and only if some request with its key has a reply to store |
| LlmClient.RefusedYetAnsweredIffRouted | tools/llm/llm_client.py:319-345 | some providers, blind to a missing system text, make that happen if and only if some request with the key is routed to a provider |
| LlmClient.WellFormedIsUnnoticed | tools/llm/llm_client.py:319-372 | over well-formed requests every reply equals the reply with caching off, in every run with failures, restarts and maintenance, as long as the gate has one setting for the requests it concerns |
| LlmClient.CollisionIsNoticed | tools/llm/llm_client.py:319-345 | two requests with one key and different replies: the second gets the first one's |
| LlmClient.SameKeySameReply | tools/core/cache.py:69-124 | well-formed requests with one key have one reply, for providers that treat a missing and an empty system text alike |
| LlmClient.RequestsAreCacheRuns | tools/llm/llm_client.py:319-365 | every run of requests is a run of the cache, so the theorems on cache runs carry over |
| LlmClient.ConsultsMeans | tools/llm/llm_client.py:319-372 | a provider is called if and only if the reply can depend on what providers answer |
| LlmClient.ConsultsWhenStale | tools/llm/llm_client.py:319-372 | without restarts and entry writes that fail part way a provider is called if and only if the gate lets the request through, it is routed, and the last stored response is too old, was dropped, or never was |
| ProbeCache.CheckMeans | tools/llm/model_probe.py:109-179 | one check: the session's result, else, unless forced, one from the file less than an hour old (success), 24 hours (permanent errors) or five minutes (others), never one without a readable time, else the probe's; and what each leaves in session, memory and file |
| ProbeCache.ValidUntil | tools/llm/model_probe.py:109-132 | a result that is valid at some time was valid at every earlier time |
| ProbeCache.CheckFollowsHistory | tools/llm/model_probe.py:138-179 | after any run with forcing, clearing, restarts and failing file writes, an unforced check returns what the session holds, else the last probe it knows of if the file is in use and the result valid, else probes |
| ProbeCache.KnownIsLastProbed | tools/llm/probe_config.py:340-360 | when all writes succeed, what a session knows and what the file holds is the result of the last probe over all sessions that keep the file |
| ProbeCache.CutShortForgets | tools/llm/probe_config.py:340-360 | after a write that is cut short a new session probes for every key |
| ProbeCache.SessionProbesOnce | tools/llm/model_probe.py:150-154 | without forcing and clearing a session probes each key at most once, and every later result is the same |
| ProbeCache.ReportShowsLast | tools/llm/model_probe.py:181-228 | a report after a filter, forced or not and with any repeated keys, shows each key's last result |
| ProbeCache.ReportNeverRaises | tools/llm/model_probe.py:181-228 | a report after a filter that completed probes nothing, so no file write can fail it |
| ProbeCache.ReportAgreesWithFilter | tools/llm/model_probe.py:181-228 | filter and report give the same results and the same usable list in order: on any list unforced, on a list of distinct keys forced |
| ProbeCache.ForcedAgreesIffDistinct | tools/llm/model_probe.py:181-228 | a forced filter and the report after it list the same usable models whatever the probes find if and only if no two models share a key |
| ProbeCache.ForcedRepeatsDisagree | tools/llm/model_probe.py:181-198 | for every list that repeats a key, probes after which the filter lists a model and the report lists none |
| ProbeCache.LastCheck | tools/llm/model_probe.py:193-197 | the last position with a given key |
| ProbeCache.ValidMeansNoProbe | tools/llm/model_probe.py:109-132 | in a new session the keys counted as valid are exactly those answered without probing, and those counted as usable exactly the ones whose answer is usable |
| ModelProbe.ModelProbe.constructor | tools/llm/model_probe.py:89-95 | a new probe object has an empty session and the file's results if the file is in use |
| ModelProbe.CacheFile.Save | tools/llm/probe_config.py:356-360 | what the file holds after each way a write can end |
| ModelProbe.ModelProbe.CheckModel | tools/llm/model_probe.py:138-179 | result, origin and whole new state are those `CheckMeans` describes, also when the file write raises; an unforced session hit returns the very object held before, flagged as cached for all its holders, and every other check makes a new object |
| ModelProbe.ModelProbe.FilterRunnable | tools/llm/model_probe.py:181-198 | the usable models in order and the state after all checks, or the state at the first file write that raises |
| ModelProbe.ModelProbe.GetProbeReport | tools/llm/model_probe.py:200-228 | the total, the usable models in order, the others in order with their errors, the details, and the state after all checks, or the state at the first file write that raises |
| ModelProbe.DetailsShowEveryResult | tools/llm/model_probe.py:207-212 | the details name exactly the given models and show every check's result, repeated models included |
| ModelProbe.UsableAndUnusableAddUp | tools/llm/model_probe.py:213-222 | each model is in one of the two lists, as often as it was given, so the counts add up to the total |
| ModelProbe.ModelProbe.ClearCache | tools/llm/model_probe.py:230-245 | clears one key, or everything when the name is missing or empty, in session, memory and file, also when the file write raises |
| ModelProbe.ModelProbe.GetCacheSummary | tools/llm/model_probe.py:247-274 | the counts are the numbers of valid and of usable keys, and add up |

## Left out

- Hashing: SHA-256 and the shortened MD5 are not modelled. Cache keys are the hashed texts (SHA-256 taken as injective);
  probe keys come from an arbitrary function of the model name, so shortened hashes may coincide.
- JSON: serialising and parsing are taken to be inverse to each other; a file is whole or torn. Labels stored beside a
  response (model, prompt hash, version, update time) are not modelled.
- Floating point: numbers are reals, so rounding and the rounding of reported scores are not modelled. Rendered
  temperatures and limits are arbitrary texts.
- Times: clock readings are integers. Unreadable dates appear for probe results only.
- Text: lower-casing covers ASCII letters. Case folding, the refusal-prose pattern and the FILE/ENDFILE pattern are
  arbitrary functions.
- Diagnostics carry their field and code, not the text of their messages.
- Overlapping threads: the cache writes its files outside its lock, so the cache theorems are about one operation at a
  time. The compare-and-swap model does interleave its workers.
- Processes that write one probe file at the same time, and probe files edited into an unexpected shape.
- The `cached` flag inside the details of a report.
- The first `_get_cache` of a process, which fixes whether the cache is enabled: `LlmClient` takes the cache as given,
  and the environment's switch at each call as a separate flag.
- `clear_cache(max_age_hours)`: the code ignores the age it is given and only removes expired entries, which is
  `CleanupExpired`.
- Redis itself: expiry of the key, lost connections and the WATCH fallback. A swap is atomic, as the script is.
- Providers and probes: a provider call is a function of its arguments; a probe is a parameter of the check.
- Exceptions that are not subclasses of `Exception`, such as an interrupt during a retried call.
- The weighted scorer and the placeholder test of the live gate: a run arrives as crashed, unserved, unscorable or
  scored.
- Step scheduling, model registry, discovery, reports and command lines: input and output, or data.
- A router whose counters are reset below its baseline while it runs; `CasProtocol.MergeAddsDelta` covers what its
  merge then does.
- Dictionary subclasses and other containers besides dictionaries, lists and tuples in an inventory.
