# Offline algorithms of the XDR lens, modelled and proved

The lens decodes Stellar XDR values into neutral trees and works on them without a network: it compares trees and
reports changes with paths, derives balance deltas from transaction metadata, turns values into JSON and back, walks
the sections of contract WASM, packs wide integers, evaluates claim predicates, matches signatures with signers and
locates fields in JSON text. This project models those algorithms and proves what they promise.

| files | what they hold |
|---|---|
| `Text`, `Tree`, `Changes` | path text, the neutral tree with field lookup, the list of changes that a comparison appends to |
| `PathFilters` | the `**` glob over path segments and the include/exclude filter |
| `Alignment`, `GreedyMatching`, `FirstFit`, `SignerDiff` | the LCS table and edit script, the two-pass and greedy matchers, what one greedy pass picks, the multiset difference |
| `StructuralDiff`, `DiffEngine` | the comparison as functions of the trees, and the walk that appends changes in place, proved to append exactly what the functions say |
| `DiffCoherence`, `DiffSoundness`, `DiffMask`, `ChangeShapes`, `MaskFilter`, `DiffPaths`, `DiffPlaces`, `ChangeOrder` | what the reported changes mean, where they lie, that none is missing, and their order |
| `SpecialNodes`, `OperationDiff`, `EventDiff`, `SignerChanges` | memos, ledger entries and named lists, spelled out without the functions that compare them |
| `ScValDiff`, `ScValSoundness` | the comparison of Soroban values, and what equal and unequal ones are |
| `BalanceReplay`, `BalanceHistory`, `BalanceLedger` | the per-key state machine and its summary, what they say read off any stream, and a ledger they are compared with |
| `Leb128`, `WasmSections`, `WasmWriting` | the two LEB128 readers and the two section walks, and modules written for them, against the grammar of the WebAssembly Core Specification (sections 5.2.2, 5.5.2 and 5.5.3) |
| `JsonCodec`, `JsonEncoder`, `JsonRoundTrip`, `JsonOrder` | the structural JSON codec over a universe of types |
| `JsonNumbers`, `JsonMeaning`, `JsonDocument` | which documents mean which values, and which document a value is written as, stated apart from the codec |
| `WideIntegers`, `SignatureMatching`, `ClaimPredicates`, `ClaimRules`, `JsonSearch`, `JsonPlaces` | the small exact engines |

Code that works step by step is a method with the loops of the original, or a class with its fields; its contract ties
the new state to a specification function, and the theorems are lemmas about those functions: each is tied to a
description of the result that does not use it. Scalar sameness,
renderings and matching keys that come from the SDK are function parameters (`Judge`, `Options`), so the theorems hold
for every choice of them unless a lemma says otherwise.

Several promises hold only under a condition. Where that is so, a lemma gives inputs on which the promise fails and
another gives the condition:

- Diffing with a mask is not the same as filtering afterwards. The walk drops a change when any prefix of its path is
  masked, and never looks at the path of a reordered operation. On all trees without ledger entries and operation
  lists, the two agree exactly for the masks that hide whatever lies beneath what they hide; with operation lists,
  exactly for those that also hide no operation without its list (`MaskFilter.PruningFiltersIff`). For every other
  mask there is a pair of trees, built from the path that the mask mistreats, on which they differ.
- A structural JSON trip keeps a value exactly when no pointer in it leads to an absent value. The comment in
  `pkg/lens/roundtrip.go` promises it for every value, but a pointer to an absent list comes back as an absent pointer.
  The tree of the value survives in every case.
- A signed 256-bit integer given as a JSON number reads back as that number only from 0 up to 2^255 - 1, and for -2^255.
- The WASM extractor accepts sizes that the specification does not (a sixth byte, values beyond 32 bits) and ignores
  the version; on every module that follows the grammar it agrees with the parser.
- The boolean comparison and the walk disagree on some structs that repeat a field name. They agree whenever fields of
  one name are the same on both sides, unique names being one way to have that; this condition is sufficient, not exact.

## Model

| member | source | states |
|---|---|---|
| Text.ScanIntItoa | pkg/lens/node.go:352-385 | the index that a path renders is the index that the path parser scans back |
| Tree.SplitPath | pkg/lens/node.go:352-385 | the cursor loop cuts a path into exactly the steps of the path grammar |
| Tree.SplitPart | pkg/lens/node.go:352-385 | one dotted part contributes its name and its bracketed indexes, in order, after the steps already found |
| Tree.Find | pkg/lens/node.go:84-106 | the stepwise descent returns the node that following the steps one by one reaches, or nothing once a step fails |
| Tree.ResolveJoin | pkg/lens/diff.go:1151-1159 | joining a clean field name to a path addresses that field of whatever the path addresses |
| Tree.ResolveAt | pkg/lens/diff.go:829-838 | appending an index to a path addresses that element of whatever the path addresses |
| PathFilters.PathSegments | pkg/lens/diff_filter.go:166-189 | the loop yields exactly the segments of the path grammar, brackets opened |
| PathFilters.SegmentsJoin | pkg/lens/diff.go:1151-1159 | a path grown by a clean name has exactly one more segment, that name |
| PathFilters.SegmentsAt | pkg/lens/diff.go:829-838 | a path grown by an index has exactly one more segment, its decimal text |
| PathFilters.SelectsIffPrefixMatches | pkg/lens/diff_filter.go:137-160 | a pattern selects a path exactly when it matches some prefix of it in full, `**` standing for any number of segments |
| PathFilters.SelectionIsPrefixClosed | pkg/lens/diff_filter.go:137-160 | a selected path stays selected however it is extended |
| PathFilters.Matches | pkg/lens/diff_filter.go:53-75 | a path passes when no exclude selects it and, if there are includes, some include does |
| PathFilters.SelectedIff | pkg/lens/diff_filter.go:53-75 | a path passes exactly when some include, if there are any, matches the whole of a prefix of it and no exclude does; without includes only the excludes decide |
| PathFilters.KeptArePassing | pkg/lens/diff_filter.go:79-90 | what a filter keeps are the changes at the indices that pass, each once, in their order |
| PathFilters.FilterChanges | pkg/lens/diff_filter.go:79-90 | the selected changes in order, or all of them for an empty filter |
| Alignment.BuildTable | pkg/lens/diff.go:841-858 | every cell of the table holds the length of the best alignment of the two suffixes |
| Alignment.ScriptVisitsAll | pkg/lens/diff.go:859-879 | the edit script visits every left and every right index exactly once, in order |
| Alignment.ScriptKeepsMatching | pkg/lens/diff.go:859-879 | the pairs it keeps match and strictly increase on both sides, for any relation |
| Alignment.MatchingIncreases | pkg/lens/diff.go:859-879 | what an order-preserving matching is, spelled out index by index |
| Alignment.ScriptKeepsLcs | pkg/lens/diff.go:841-879 | it keeps as many pairs as the table promises |
| Alignment.LcsIsLargest | pkg/lens/diff.go:841-858 | no order-preserving matching is longer than the table's value |
| Alignment.AlignmentIsMinimal | pkg/lens/diff.go:841-879 | removals plus additions equal both lengths less twice the largest matching, so no script is cheaper |
| Alignment.AdditionsComeFirst | pkg/lens/diff.go:859-879 | equal elements are kept at once; otherwise the right one is added first exactly when some largest matching does without it, so on a tie additions come before removals |
| GreedyMatching.EveryIndexUsedOnce | pkg/lens/diff.go:1246-1287 | each left and right index is kept, moved or left over, exactly one of the three, for any relation |
| GreedyMatching.PermutationIsMatched | pkg/lens/diff.go:1246-1287 | when one list is a permutation of the other, nothing is left over |
| GreedyMatching.MovesRestoreOrder | pkg/lens/diff.go:1264-1307 | making the moves puts an equal element at every position |
| GreedyMatching.PermutationDetectionIsExact | pkg/lens/diff.go:1246-1307 | on a permutation the moved elements are exactly those at differing positions, none stays where it was, and the moves restore the order |
| GreedyMatching.ShiftedStaysOneToOne | pkg/lens/diff.go:1482-1516 | each greedy pass keeps the pairing one to one and its flags exact |
| GreedyMatching.GreedyIsIdentity | pkg/lens/diff.go:1482-1516 | lists equal position by position are paired position by position |
| FirstFit.ShiftedIsFirstFit | pkg/lens/diff.go:1265-1286 | a greedy pass gives each free left element the first related right one that was free and that no earlier element took, and leaves one unpaired only if all of its matches were taken |
| SignerDiff.SignerSetDiff | pkg/lens/signer_diff.go:151-192 | the counting loops produce exactly the common, removed and added labels of the multiset split |
| SignerDiff.KeysSplit | pkg/lens/signer_diff.go:151-192 | the split takes the intersection of the key multisets and leaves the difference |
| SignerDiff.SplitKeepsOrder | pkg/lens/signer_diff.go:151-192 | both halves are subsequences of the list and together make it up |
| SignerDiff.DiffIsMultisetAlgebra | pkg/lens/signer_diff.go:151-192 | common, removed and added are, as key multisets, min(L,R), L-R and R-L |
| SignerDiff.EqualIffSameKeys | pkg/lens/signer_diff.go:36-36 | the difference is empty exactly when the key multisets are equal |
| SignerDiff.DiffSwaps | pkg/lens/signer_diff.go:151-192 | swapping the sides swaps added with removed |
| SignerDiff.DiffIgnoresOrder | pkg/lens/signer_diff.go:151-192 | reordering either side changes neither the verdict nor the key multisets |
| SignerChanges.SplitAppend | pkg/lens/signer_diff.go:164-181 | one more item is left over exactly when as many of its key came before it as the other side has |
| SignerChanges.ExcessIsReported | pkg/lens/signer_diff.go:225-241 | the changes are one removal, with its label before, for each left element in excess of the right side, then one addition, with its label after, for each right one in excess, all at the list's path; the elements in excess are given by index, and their keys are L-R and R-L |
| DiffEngine.DiffWithOptions | pkg/lens/diff.go:184-228 | the result is every change between the roots under the mask, then filtered |
| DiffEngine.DiffNodesInto | pkg/lens/diff.go:231-290 | the walk appends to the list, after what is there, exactly the changes between two nodes |
| DiffEngine.DiffStructsInto | pkg/lens/diff.go:294-361 | structs append their field changes, a memo that switched arms one change, a ledger entry its header first |
| DiffEngine.DiffFieldsInto | pkg/lens/diff.go:364-377 | fields in the left order, then the fields that only the right side has |
| DiffEngine.DiffListsInto | pkg/lens/diff.go:819-839 | each kind of list appends what its own comparison reports |
| DiffEngine.DiffPositionsInto | pkg/lens/diff.go:829-838 | the position loop visits every index of the longer list once |
| DiffEngine.DiffAlignedInto | pkg/lens/diff.go:841-879 | the table-driven walk appends exactly what its edit script reports |
| DiffEngine.MatchInPlace | pkg/lens/diff.go:1246-1262 | the first pass flags exactly the positions that hold equal operations |
| DiffEngine.MatchShifted | pkg/lens/diff.go:1265-1286 | the second pass pairs each free left element with the first free equal right one |
| DiffEngine.LeftoverChanges | pkg/lens/diff.go:1309-1349 | the operations left over are compared pairwise, then removed or added |
| DiffEngine.DiffOperationsInto | pkg/lens/diff.go:1246-1357 | the comparison of operation lists appends the moves and the changes of what is left over, stably sorted by position (see ChangeOrder.SortIsStable) |
| DiffEngine.DiffEventsInto | pkg/lens/diff.go:1460-1535 | event lists append the changes of the pairing, then removals and additions (see EventDiff.EventsArePaired and EventDiff.EventsAreVisited) |
| DiffEngine.DiffMultisetsInto | pkg/lens/signer_diff.go:225-241 | signer lists append removals, then additions, of the multiset difference (see SignerChanges.ExcessIsReported) |
| DiffCoherence.SameNodesAreSilent | pkg/lens/diff.go:881-900 | two trees that the boolean comparison calls the same, fields of one name being the same, make the walk append nothing at any path, in every branch |
| DiffCoherence.UniqueNamesAreAlike | pkg/lens/diff.go:881-900 | in trees that the comparison calls the same, unique sibling names are enough for that |
| DiffCoherence.SelfSilent | pkg/lens/diff.go:231-290 | a tree compared with itself is silent for any reflexive relation and any options |
| DiffCoherence.EventDiagonal | pkg/lens/diff.go:1460-1535 | on events alike position by position the greedy pairing is the identity |
| DiffCoherence.SameOperations | pkg/lens/diff.go:1246-1357 | operation lists equal position by position report nothing |
| DiffCoherence.NoTransition | pkg/lens/diff.go:454-496 | equal ledger entries get no transition header |
| DiffCoherence.RepeatedNamesBreakCoherence | pkg/lens/diff.go:881-900 | on a struct that repeats a field name the two disagree: it is the same as itself, yet the walk reports a change |
| DiffSoundness.EqualIsSound | pkg/lens/diff.go:166-166 | an empty change list relates the trees node by node: kinds, scalars, field names, list positions, events by a bijection |
| DiffSoundness.SilentOperationAt | pkg/lens/diff.go:1246-1357 | a silent operation comparison leaves equal or silently compared operations at every position |
| DiffSoundness.SilentEventsArePaired | pkg/lens/diff.go:1460-1535 | a silent event comparison pairs all events of both sides one to one |
| DiffPlaces.EveryDifferenceIsReported | pkg/lens/diff.go:231-290 | at every place that both trees share down to its owner, a missing node, two nodes of different kinds or two different scalars are reported there, with the values and notes of both sides |
| SpecialNodes.MemosAreCompared | pkg/lens/diff.go:334-361 | two memos whose active arms are a text and the number it spells are one change that tells both; all others are compared by fields |
| SpecialNodes.LedgerEntriesAreAnnounced | pkg/lens/diff.go:454-496 | the field changes of a ledger entry follow a header that tells whether it was created, deleted, updated or unknown by which side has data, and one with its key; a silent entry whose data did not come or go has none |
| SpecialNodes.PathNamesTheList | pkg/lens/signer_diff.go:208-220 | an anonymous list goes by the last name on its path |
| SpecialNodes.ListsAreCompared | pkg/lens/diff.go:819-839 | which lists are compared as multisets, by matching, by pairing, aligned or by position |
| EventDiff.EventsArePaired | pkg/lens/diff.go:1480-1516 | any events are paired in two passes, by contract and all topics and then by contract and a first topic that is not empty, each left event taking the lowest right index free in its pass |
| EventDiff.NoMatchIsMissed | pkg/lens/diff.go:1480-1516 | two events left over agree neither on all topics nor on the first; every pair agrees on one or the other, and events paired by the first topic alone had no exact match left |
| EventDiff.EventsAreVisited | pkg/lens/diff.go:1518-1535 | pairs are compared at their right index, then the left events left over removed and the right ones added, each at its own |
| EventDiff.EventIsKnownBy | pkg/lens/diff.go:1405-1441 | an event is known by the rendering of its contract, of its first topic and of all its topics |
| EventDiff.TopicGoesByArm | pkg/lens/diff.go:1443-1457 | a topic is rendered by the value of whichever known arm it has |
| EventDiff.TopicsAreJoined | pkg/lens/diff.go:1405-1441 | all topics are joined with `::` between each and the next |
| EventDiff.TopicMutationIsCompared | pkg/lens/diff.go:1498-1516 | two events that differ in a topic behind the first are compared with each other |
| OperationDiff.SortPermutes | pkg/lens/diff.go:1351-1357 | the final sort by position neither loses nor invents a change |
| ChangeOrder.SortIsStable | pkg/lens/diff.go:1351-1357 | the sorted changes are those at a one-to-one choice of indices whose positions never fall, and at one position keep their order |
| ChangeOrder.OperationsAreSorted | pkg/lens/diff.go:1288-1357 | the changes of operation lists are the moves and the changes of what is left over, sorted so |
| ChangeOrder.OperationChangesInOrder | pkg/lens/diff.go:1288-1357 | they follow the elements they lie at, from the first to the last |
| ChangeOrder.LeftoversSpelled | pkg/lens/diff.go:1309-1349 | the operations left over are compared in order at the right index, and the surplus of the longer side removed or added at its own |
| ChangeOrder.PermutationTellsMoves | pkg/lens/diff.go:1288-1307 | on a permutation each change tells, in its path, values and notes, from where to where an operation moved that both sides have |
| ChangeOrder.FieldChangesInOrder | pkg/lens/diff.go:364-377 | the changes of structs follow the left fields, then those only the right struct has |
| ChangeOrder.PositionChangesInOrder | pkg/lens/diff.go:829-838 | those of lists compared by position follow the positions |
| OperationDiff.LeftoversVisitedOnce | pkg/lens/diff.go:1309-1349 | each operation left over is paired, removed or added exactly once |
| OperationDiff.OnlyMoves | pkg/lens/diff.go:1246-1357 | when everything is matched, the changes are the detected moves and nothing else |
| OperationDiff.PermutationReportsOnlyMoves | pkg/lens/diff.go:1246-1357 | for a permutation every change is a reordering between different positions, one for each differing position, and the moves restore the order |
| DiffMask.MaskingPrunes | pkg/lens/diff.go:231-235 | for every mask, the walk reports exactly the unmasked changes none of whose path prefixes is masked, in order |
| ChangeShapes.ChangesAreShaped | pkg/lens/diff.go:231-290 | on trees without ledger entries every change lies at a path of clean names and indexes, and only elements of operation lists are reordered, so none is where the trees have no such list |
| MaskFilter.IncludeMasksAreClosed | pkg/lens/diff_filter.go:53-75 | a mask of include patterns hides whatever lies beneath what it hides |
| MaskFilter.PruningEqualsFiltering | pkg/lens/diff_filter.go:79-90 | under a mask that hides whatever lies beneath what it hides and, if the trees have operation lists, no operation without its list, the masked diff is the unmasked diff with the masked changes dropped, in order |
| MaskFilter.PruningLosesExcluded | pkg/lens/diff.go:231-235 | a mask that hides a path but not one beneath it loses a change that filtering keeps, on a pair of trees built from the path |
| MaskFilter.ReorderingEscapesMask | pkg/lens/diff.go:1288-1307 | a mask that hides an operation but nothing above it lets a swap of that operation through that filtering drops, on a pair of trees built from the path |
| MaskFilter.PruningFiltersIff | pkg/lens/diff.go:231-235 | pruning equals filtering on every pair of trees exactly for the masks of those two conditions, the second only when the trees may have operation lists |
| MaskFilter.ExcludesBreakFiltering | pkg/lens/diff_filter.go:53-75 | the smallest mask of the first kind: include `A`, exclude `A.X` |
| MaskFilter.SwapEscapesInclude | pkg/lens/diff.go:1288-1307 | the smallest of the second kind: include `Operations[0]`, and two operations swapped |
| MaskFilter.MaskedReorderingsStay | pkg/lens/diff.go:1288-1307 | on any trees, a reordering is reported although the mask hides its own path |
| OperationDiff.SwapIsTwoMoves | pkg/lens/diff.go:1265-1286 | swapping two different neighbours anywhere in a list is detected as two moves |
| DiffPaths.ChangePathsParseBack | pkg/lens/diff.go:231-290 | on trees without special lists, the path of every change resolves on each side that has the node to the node whose value and note it reports: two different scalars, two nodes of different kinds, or one; the other side has nothing there unless lists are aligned, a removal then lying at its left index and an addition at its right one |
| ScValDiff.ReplaceChild | pkg/lens/scval_diff.go:104-112 | the child with the name is overwritten, or appended if there is none |
| ScValDiff.BuildNode | pkg/lens/scval_diff.go:30-87 | the recursive builder yields the tree of the value, in which every part is found at its place (see ScValSoundness), and fails exactly on a missing arm |
| ScValDiff.DiffScVal | pkg/lens/scval_diff.go:16-28 | the comparison of two values is the comparison of their trees under the default options; it is silent only on alike values (see ScValSoundness.SilenceMeansAlike) |
| ScValDiff.MalformedAlike | pkg/lens/scval_diff.go:30-87 | reordering maps does not change whether a value is malformed |
| ScValDiff.MapOrderNeverMatters | pkg/lens/scval_diff.go:48-87 | trees of values that differ in the order of map entries at any depth compare silently at every path |
| ScValDiff.PermutedMapsCompareEqual | pkg/lens/scval_diff.go:12-28 | such values compare equal, plain and semantic |
| ScValSoundness.SilenceMeansAlike | pkg/lens/scval_diff.go:12-28 | well-formed values that compare without a change are alike: plain fields related, vectors item by item, maps with the same keys and alike values, wide integers in semantic mode with the same kind, arm and decimal |
| ScValSoundness.RefusedIffIncomplete | pkg/lens/scval_diff.go:48-87 | a comparison is refused exactly when an arm is missing somewhere in either value |
| ScValSoundness.KindIsLabelled | pkg/lens/scval_diff.go:30-46 | every value is labelled with its kind, under the name asked for |
| ScValSoundness.ItemSitsAt | pkg/lens/scval_diff.go:48-61 | an item of a vector is found at its index below `Vec` |
| ScValSoundness.EntrySitsAt | pkg/lens/scval_diff.go:63-84 | the value of a map entry is found below `Map` at the name of its key |
| ScValSoundness.WideSitsAt | pkg/lens/scval_diff.go:36-46 | in semantic mode a wide integer shows its kind and, under its arm, its decimal |
| BalanceReplay.BalanceDeltaBuilder.Record | pkg/lens/meta_diff.go:225-253 | one change advances one entry's before and after exactly as its type says |
| BalanceReplay.Replay.ApplyLedgerEntryChange | pkg/lens/meta_diff.go:171-255 | one change updates the builder of its key and no other, or is refused with nothing changed |
| BalanceReplay.Replay.Process | pkg/lens/meta_diff.go:38-46 | a stream is folded up to its first refused change |
| BalanceReplay.Replay.Summarize | pkg/lens/meta_diff.go:115-151 | whatever order the builders are visited in, the deltas are the reported ones in strict order, unless one overflows |
| BalanceReplay.DiffTransactionMetaBalances | pkg/lens/meta_diff.go:33-152 | the outcome is the first failing change, an overflow, or the sorted summary of the whole stream |
| BalanceReplay.BeforeTransitive | pkg/lens/meta_diff.go:139-149 | the order of holder, asset and key is transitive |
| BalanceReplay.BeforeTotal | pkg/lens/meta_diff.go:139-149 | it orders any two deltas with different keys |
| BalanceHistory.ReplayTellsHistory | pkg/lens/meta_diff.go:171-255 | any stream is refused exactly at its first change of unknown type, without an arm, with a malformed entry or with another identity for a known key; otherwise each entry has the balance its first opening change tells and the one its last setting change leaves |
| BalanceHistory.SummaryTellsHistory | pkg/lens/meta_diff.go:115-151 | for any stream the summary has one delta for each entry whose balance was set and is not known to be unchanged; without an earlier balance the delta is zero and marked so; holder comes before asset before key |
| BalanceHistory.TextOrder | pkg/lens/meta_diff.go:139-149 | one text comes before another when it is smaller at the first difference, or ends there |
| BalanceLedger.StepMirrors | pkg/lens/meta_diff.go:171-255 | a truthful change keeps every builder in step with the ledger, and is never refused |
| BalanceLedger.RunMirrors | pkg/lens/meta_diff.go:171-255 | so does every honest stream |
| BalanceLedger.OverflowIsExact | pkg/lens/meta_diff.go:130-135 | the guard fires exactly when some true difference of balances leaves 64 bits |
| BalanceLedger.ReplayIsExact | pkg/lens/meta_diff.go:115-151 | the result is exactly the difference of the ledgers before and after: each changed key once, exact before, after and delta, strictly ordered; or the overflow |
| BalanceLedger.ReplayConserves | pkg/lens/meta_diff.go:115-140 | for every asset the reported deltas add up to the change of its total |
| Leb128.Uvarint | pkg/lens/contract_code.go:202-206 | the library reader accepts exactly the 64-bit integers of the specification |
| Leb128.ReadU32 | pkg/lens/contract_code.go:202-214 | the strict reader accepts exactly the 32-bit integers of the specification, with value and size |
| Leb128.ByteReader.ReadVarUint32 | pkg/lens/spec_decode.go:225-243 | the shift loop reads up to six bytes and keeps the value modulo 2^32 |
| Leb128.StrictImpliesLenient | pkg/lens/spec_decode.go:225-243 | what the strict reader accepts the lenient one reads alike, consuming the same bytes |
| Leb128.ReadersDifferIff | pkg/lens/contract_code.go:202-214 | the readers differ exactly on integers ending within six bytes that take six or exceed 32 bits |
| Leb128.EncodedIsRead | pkg/lens/contract_code.go:202-214 | the shortest encoding of an integer reads back, whatever follows it |
| WasmSections.CustomSectionOf | pkg/lens/contract_code.go:180-191 | a custom section is cut into name and content as the specification says, or refused |
| WasmSections.DecodeSectionStream | pkg/lens/contract_code.go:161-177 | the loop decodes the whole stream, and refuses an entry that takes no bytes |
| WasmSections.ContractCode.AddCustomSection | pkg/lens/contract_code.go:112-155 | a known section's entries are appended to its own field; other names change nothing |
| WasmSections.ParseContractCode | pkg/lens/contract_code.go:66-107 | a module is accepted exactly when it follows the section grammar and its known streams decode; the result holds their entries in module order |
| WasmSections.ExtractWasmContractSpec | pkg/lens/spec_decode.go:134-206 | the reader loop computes the extractor's walk, its position arithmetic in 32 bits |
| WasmSections.SpecOfCustomSection | pkg/lens/spec_decode.go:159-195 | inside a custom section the walk ends or moves the reader past the section |
| WasmSections.ExtractorFollowsGrammar | pkg/lens/spec_decode.go:134-206 | on a module that follows the grammar the extractor returns the first specification section, or says there is none |
| WasmSections.WalkersAgree | pkg/lens/contract_code.go:66-107 | so it does on every module that the parser accepts |
| WasmSections.ExtractedSpecIsParsedFirst | pkg/lens/spec_decode.go:134-206 | the parsed specification begins with the entries of the extracted section, and is empty if there is none |
| WasmSections.AssembledIsRead | pkg/lens/contract_code.go:81-93 | sections written one after another are read back |
| WasmSections.PlacedSpecIsExtracted | pkg/lens/spec_decode.go:134-206 | a specification placed behind any other sections is what the extractor returns |
| WasmSections.PaddedSizeParts | pkg/lens/spec_decode.go:225-243 | a size padded to six bytes is refused by the grammar and read by the extractor |
| WasmWriting.WrittenModuleIsParsed | pkg/lens/contract_code.go:66-155 | in a module written from parts, the parser puts the entries of each named section, in order, into the stream of that name and no other |
| WasmWriting.WrittenSpecIsExtracted | pkg/lens/spec_decode.go:134-206 | the extractor returns the bytes written into the first specification part |
| WasmWriting.StreamIsRead | pkg/lens/contract_code.go:161-177 | entries written one after another are read back |
| JsonEncoder.BuildTree | pkg/lens/node.go:182-311 | the builder unwraps pointers, prunes absent values and yields the tree of a value |
| JsonEncoder.BuildStruct | pkg/lens/node.go:215-242 | the field loop appends the fields that are present, in order |
| JsonEncoder.BuildList | pkg/lens/node.go:262-271 | the element loop appends one child for each element, an empty scalar for an absent one |
| JsonEncoder.EncodeJsonInto | pkg/lens/encode.go:220-321 | the encoder writes into its destination what the document means, or refuses it (see JsonMeaning.EncodingIsMeaning) |
| JsonEncoder.EncodeStruct | pkg/lens/encode.go:349-370 | every key is written into its field in the order visited; unknown keys are refused, derived ones passed over |
| JsonEncoder.EncodeSequence | pkg/lens/encode.go:372-402 | the elements are written one by one over those in place |
| JsonEncoder.DecodeBytes | pkg/lens/encode.go:432-472 | bytes are read from hex text or from a list of numbers, nothing else |
| JsonNumbers.SignedIsRead | pkg/lens/encode.go:1142-1165 | a text is read as an integer exactly when it is digits with at most one sign, blanks aside, that spell it, in 64 bits |
| JsonNumbers.UnsignedIsRead | pkg/lens/encode.go:1167-1200 | as an unsigned one, without any sign |
| JsonNumbers.BytesAreDecoded | pkg/lens/encode.go:432-472 | bytes are decoded exactly from text of two hexadecimal digits each, of either case and perhaps prefixed, or from a list of their numbers |
| JsonNumbers.HexIsLower | pkg/lens/node.go:244-260 | bytes are written as two lower-case digits each |
| JsonMeaning.ScalarIsCarried | pkg/lens/encode.go:277-307 | a scalar document is accepted exactly when the number, text or constant it carries lies in the range of the type, and yields that |
| JsonMeaning.EncodingIsMeaning | pkg/lens/encode.go:220-402 | for any type and document without repeated keys, the encoder accepts exactly what means a value of the type, and yields the value it means |
| JsonMeaning.AcceptedIsTyped | pkg/lens/encode.go:220-402 | whatever the document, what is accepted is a value of the type |
| JsonDocument.DocumentRenders | pkg/lens/node.go:182-311 | a value is written as the document that spells it: fields that are there in order, null for a hollow element, constants by name |
| JsonRoundTrip.BytesRead | pkg/lens/encode.go:432-455 | the hex text of any bytes reads back |
| JsonRoundTrip.EnumReads | pkg/lens/encode.go:969-990 | the name, or number, an enum value renders as reads back |
| JsonRoundTrip.ConvertKeepsOrder | pkg/lens/format/json.go:95-124 | distinct field names become the keys of the object, each with its own content; the order is the model's, the source's object having none (see JsonOrder.OrderIsIrrelevant) |
| JsonRoundTrip.TripCollapses | pkg/lens/encode.go:220-321 | encoding the document of any value gives the value with its hollow pointers made absent |
| JsonRoundTrip.RoundTripIff | pkg/lens/roundtrip.go:11-26 | the value comes back exactly when no pointer in it leads to an absent value |
| JsonRoundTrip.HollowPointerIsLost | pkg/lens/node.go:182-197 | a pointer to an absent list comes back as an absent pointer |
| JsonRoundTrip.TreeSurvives | pkg/lens/roundtrip.go:11-26 | the value that comes back is well typed and has the tree of the original, in every case |
| JsonOrder.MembersAreIndependent | pkg/lens/encode.go:349-370 | an object is accepted exactly when each key is, and each field holds what its own key wrote |
| JsonOrder.OrderIsIrrelevant | pkg/lens/encode.go:349-370 | documents that differ in key order and derived keys, at any depth, are encoded alike or refused alike |
| JsonOrder.RearrangedTripCollapses | pkg/lens/encode.go:322-370 | the trip works whatever order the keys are put in and whatever annotations are added |
| WideIntegers.UnsignedLimbs | pkg/lens/semantic_diff.go:65-72 | the loop joins the limbs into the number they spell |
| WideIntegers.SignedLimbs | pkg/lens/semantic_diff.go:74-81 | the loop joins further limbs to a signed leading one |
| WideIntegers.ReadingIsInjective | pkg/lens/semantic_diff.go:34-63 | integers of one type read as the same number only if all limbs agree |
| WideIntegers.LimbsAreWeighted | pkg/lens/semantic_diff.go:34-63 | each limb weighs 2^64 times the next, the most significant first; limbs given one by one are taken as they are |
| WideIntegers.SemanticTextIsExact | pkg/lens/semantic_diff.go:34-63 | their decimal texts are equal exactly when their limbs are |
| WideIntegers.U128RoundTrip | pkg/lens/scval_encode.go:386-407 | a number is read back modulo 2^128, hence exactly below 2^128; negative ones are refused |
| WideIntegers.I128RoundTrip | pkg/lens/scval_encode.go:409-427 | a number reads back exactly when it has 128 signed bits |
| WideIntegers.Magnitude | pkg/lens/scval_encode.go:429-442 | the copied bytes spell the magnitude, refused beyond 32 bytes |
| WideIntegers.ParseU256 | pkg/lens/scval_encode.go:429-450 | the limbs read back as the magnitude, hence as the number exactly when it is not negative |
| WideIntegers.ParseI256 | pkg/lens/scval_encode.go:452-473 | the exact number the limbs read as, and that it is the original exactly from 0 to 2^255 - 1 and for -2^255 |
| SignatureMatching.SignerHint | pkg/lens/signature_explain.go:102-133 | a hint is four bytes; a malformed key has none (see SignatureMatching.HintIsTail) |
| SignatureMatching.IndexByHint | pkg/lens/signature_explain.go:147-193 | the master key first and the configured ones after it, each hint lists its signers in order, and all of them |
| SignatureMatching.DiagnoseSignatures | pkg/lens/signature_explain.go:143-233 | which signers sign follows from the counts of each hint alone; the weight is the sum over them in 32 bits; signed plus unknown is the number supplied |
| SignatureMatching.SmallerCountSigns | pkg/lens/signature_explain.go:195-214 | for each hint as many signers sign as the smaller of its signatures and its signers |
| SignatureMatching.OrderIsIrrelevant | pkg/lens/signature_explain.go:195-214 | the order in which signatures are supplied decides nothing |
| SignatureMatching.HintIsTail | pkg/lens/signature_explain.go:102-133 | a hint is the last four bytes of the key, whatever its type |
| SignatureMatching.TotalIsFromTheEnd | pkg/lens/signature_explain.go:195-214 | each signer that signed adds its own weight |
| SignatureMatching.MasterSignsFirst | pkg/lens/signature_explain.go:147-214 | a master key of any weight signs with the first signature of its hint; a configured signer once there are more signatures of its hint than signers of it before, the master key counted |
| ClaimPredicates.EvaluateClaimPredicate | pkg/lens/claimable_explain.go:56-137 | the recursive evaluation and its loop yield the verdict and the failures in order, or an error |
| ClaimPredicates.EvaluationIsFaithful | pkg/lens/claimable_explain.go:56-137 | the verdict is the truth of the predicate, and reasons are given exactly when it is false |
| ClaimPredicates.HoldsEarlier | pkg/lens/claimable_explain.go:56-137 | a predicate without negation that holds now held at every earlier time |
| ClaimPredicates.VerdictIgnoresTime | pkg/lens/claimable_explain.go:56-137 | whether the evaluation yields a verdict does not depend on the time asked about |
| ClaimPredicates.SatisfiedEarlier | pkg/lens/claimable_explain.go:56-137 | a predicate without negation that evaluates as satisfied evaluates as satisfied, without error or reasons, at every earlier time |
| ClaimPredicates.ClaimPredicateProblem | pkg/lens/explain.go:1018-1071 | the first violation of the structural rules, depth first |
| ClaimPredicates.AcceptedIsEvaluatedIff | pkg/lens/explain.go:1018-1071 | a predicate that follows the rules is evaluated without error exactly when none of its durations overflows from the creation time |
| ClaimPredicates.DiagnosisOfAccepted | pkg/lens/claimable_explain.go:56-137 | the evaluation of a predicate that follows the rules, with no duration overflowing, is the truth of it |
| ClaimPredicates.DiagnoseClaimablePredicate | pkg/lens/claimable_explain.go:32-54 | negative close times are refused; a verdict is the truth of the predicate with reasons exactly when it is false; a predicate that follows the rules gets one exactly when no duration overflows |
| ClaimRules.FirstViolationIsFound | pkg/lens/explain.go:1018-1071 | the problem found is that of the first predicate, from the outside in and left to right, that breaks a rule: deeper than four levels, a negative time or duration, something missing, or not two children |
| ClaimRules.VerdictIffUnstuck | pkg/lens/claimable_explain.go:56-137 | there is a verdict exactly when no predicate inside is deeper than 64 levels, unknown, missing a part, without children or with a negative or overflowing duration |
| ClaimRules.FailuresAreReasons | pkg/lens/claimable_explain.go:56-137 | the failures are the reasons of the predicates that do not hold, in order, a negation giving only itself |
| JsonSearch.SkipJsonValue | pkg/lens/encode_errors.go:242-265 | the depth loop leaves the decoder where the nesting has closed again |
| JsonSearch.SkipsOneValue | pkg/lens/encode_errors.go:242-265 | skipping consumes exactly one value at any nesting |
| JsonSearch.SearchPath | pkg/lens/encode_errors.go:145-172 | the stateful search returns the position that searching the remaining tokens yields |
| JsonSearch.SearchObject | pkg/lens/encode_errors.go:174-207 | within an object, the position found is that of the first matching key, or of what lies below it, and a failure there is final |
| JsonSearch.SearchArray | pkg/lens/encode_errors.go:209-231 | within an array, the position found is that of the element counted off, or of what lies below it; negative and missing indexes fail |
| JsonSearch.SearchIsExact | pkg/lens/encode_errors.go:145-231 | on any document the search succeeds exactly when the path resolves in it, at exactly that place |
| JsonPlaces.SearchFindsTheValue | pkg/lens/encode_errors.go:145-231 | the search fails exactly when the path leads nowhere; otherwise it stops where the value stands that following the path leads to, at its key if it is a member |
| JsonSearch.PathParsesBack | pkg/lens/encode_errors.go:128-143 | a rendered path parses back into its keys and indexes |
| JsonSearch.FindJsonPathLocation | pkg/lens/encode_errors.go:114-126 | the whole lookup, from path text to the place in the document |

## Left out

- DiffEngine.DiffWithOptions: the semantic preparation of roots, the merging of mask paths into the mask, redaction and the quorum warnings of `pkg/lens/diff.go:1568-1645` are left out; they need decoded account entries.
- DiffCoherence.SameNodesAreSilent: takes scalar sameness to imply equal values and nodes of different kinds never to be byte-equal, as exact comparison does, and for unordered signer lists keys that respect sameness.
- DiffCoherence.NoTransition: under the same reading of sameness.
- DiffPlaces.EveryDifferenceIsReported: the same trees as for ChangePathsParseBack, with lists compared by position; what lies beneath two memos is compared as a whole.
- ChangeOrder.OperationChangesInOrder: takes trees without ledger entries and with names that a path can carry, unmasked; so do the other two lemmas on order by path.
- ScValSoundness.SilenceMeansAlike: takes texts that compare as the same scalar to be the same text, and the fields of a value to be distinct and led by its type, as the decoder builds them.
- DiffMask.MaskingPrunes: ledger entries are left out, whose transition header is reported at a path beneath the entry, and field names that a path cannot carry.
- MaskFilter.PruningEqualsFiltering: the same trees, without operation lists directly inside lists or around them.
- DiffPaths.ChangePathsParseBack: operation lists, event lists, ledger entries and unordered signer lists are left out, whose changes do not report the value of a node at one path of both trees; a memo whose arm switched reports the value of the active arm, as in the code; aligned lists need scalar sameness to imply equal values.
- BalanceReplay.DiffTransactionMetaBalances: the versions of transaction metadata and their phases are one flattened stream; a nil change is an unknown type.
- BalanceReplay.Replay.Summarize: strings are ordered by character code, where the code compares bytes.
- BalanceLedger.ReplayIsExact: how a ledger entry yields key, holder, asset and amount comes from the SDK; the model takes the key to decide holder and asset, and a restored entry to be one the stream introduced.
- WasmSections.DecodeSectionStream: the XDR decoders of entries are a parameter that reports the bytes it took; entries decoded before a failure are dropped with the result.
- WasmSections.CustomSectionOf: a section's name is compared as bytes and not checked to be UTF-8, as in the code.
- JsonEncoder.BuildTree: enrichers, maps, floats, interfaces, type names and notes are outside the universe of types; recursive types are covered by their finite unfoldings.
- JsonEncoder.BuildStruct: field notes and node hooks are left out.
- JsonEncoder.EncodeJsonInto: special JSON forms, interfaces and floats are left out; a destination is a value or an array of fields written in place, without aliasing.
- JsonEncoder.DecodeBytes: the base64 spelling, which only special forms ask for, is left out.
- JsonMeaning.EncodingIsMeaning: an object repeats no key, as a parsed one never does.
- JsonDocument.DocumentRenders: values nested up to the depth limit of 200.
- JsonRoundTrip.EnumReads: only exact names are proved to read back; the fallback that matches normalised labels is a table.
- JsonRoundTrip.ConvertKeepsOrder: the order of keys is the model's own.
- JsonRoundTrip.RoundTripIff: number spelling, string escapes and the replacement of invalid UTF-8 belong to the JSON library.
- WideIntegers.ParseU256: takes a number; the coercion of texts to numbers and hashes is ambiguous by design and left out.
- WideIntegers.ParseI256: likewise takes a number.
- SignatureMatching.DiagnoseSignatures: addresses, summary and hint texts are left out.
- ClaimPredicates.DiagnoseClaimablePredicate: summary and hint texts are left out.
- JsonSearch.SearchPath: positions are those of tokens; byte offsets, lines and columns belong to the decoder.
- JsonSearch.SearchObject: likewise, and the textual search for the key around its offset is left out.
- JsonSearch.SearchArray: likewise.
- JsonSearch.FindJsonPathLocation: takes a parsed document, and yields the position of a token.
- Tree.SplitPath: `%d` refuses indexes beyond 64 bits; the model scans unbounded integers.
- OperationDiff.SortPermutes: the library's stable sort is modelled by its result.
- PathFilters.Matches: matching one segment, `path.Match`, is a parameter; pattern validation is not modelled.
- Scalar sameness: numeric thresholds, hex and base64 normalisation and note compatibility are one relation the caller chooses; byte equality across kinds, text/id equality of memos, canonical keys, labels, ledger keys and renderings are parameters too.
- Floating point: a float scalar is a real number, and nothing depends on its rounding.
- Redaction, summaries, statistics, account and operation filters: easier traversals of the same trees.
- I/O: decoding of XDR, command line, output formats and streams.
