# EDAM evidence pipeline and verifier: a Dafny model

EDAM captures database changes, seals them into hash-chained segments on write-once storage,
anchors each segment's head outside, and lets an independent verifier re-prove the whole history
later. This project models that pipeline and the verifier and proves what they promise each other.

`dafny verify dfyconfig.toml` checks everything.

## What is modelled

**Hashes** (`Digests.dfy`). SHA-256 is a free constructor: two digests are equal exactly when
their preimages are. A whole hash inside a preimage is one symbol, because its two spellings
(32 raw bytes, or the 71-character `sha256:` token) have a fixed width. Signatures are free
constructors over a public key and the signed content.

**Merkle log** (`TransparencyLog.dfy`, `LogProvider.dfy`). The tree hash and audit path are
recursive from the top, the verifier's loop consumes bits from the bottom with the source's 32-bit
operators. The loop omits the "sn is 0, fail" step of section 2.1.3.2 of RFC 9162, so over-long
proofs are excluded through leaf/node domain separation (section 2.1 of RFC 6962) instead.

**Canonical serialization, decimals, order** (`Canonical*.dfy`, `JsonReading.dfy`, `HashedTexts.dfy`,
`ExactDecimal.dfy`, `CceOrder.dfy`, `OffsetOrder.dfy`). A value's meaning is a reference definition
that forgets member order; the printed text is proved to determine it, and to read back as it through
a JSON reader written on its own (RFC 8259), which also reads the hashed and stored texts field by
field. Decimals are compared against exact rationals.

**Completeness** (`Intervals.dfy`, `Gtid.dfy`, `GtidCodec.dfy`, `Gaps.dfy`, `Watcher.dfy`).
Interval lists against the plain set of numbers they stand for, the printer and both parsers, what a
gap is and when it is found.

**Segments** (`CceModel.dfy`, `Manifests.dfy`, `SegmentChain.dfy`, `CrossSegment.dfy`,
`Verifier.dfy`, `Continuity.dfy`, `TamperEvidence.dfy`, `Verdicts.dfy`, `AnchorPayload.dfy`,
`VerifyAnchor.dfy`).
An envelope is its parsed JSON without `evidence` (what is hashed) beside `evidence` (what is not).
The verifier's checks are the source's loops, each proved to answer a declarative question; tamper
evidence is about that question.

**Writing** (`Accumulation.dfy`, `AccumulatorRuns.dfy`, `AccumulatorSteps.dfy`, `Clash.dfy`,
`Accumulator.dfy`, `Sealing.dfy`, `SealCondition.dfy`, `SealedChains.dfy`, `Sealer.dfy`, `StoreKeys.dfy`,
`Worm.dfy`, `Service.dfy`, `ServiceProgress.dfy`, `ServiceStore.dfy`, `ServiceVerified.dfy`). The accumulator and the sealer are classes over
specification functions; the service is a state machine whose steps are the pieces of code between
two awaits, with any task free to take the next step and any write, signature or anchor free to
fail. An operation that throws keeps what it changed before.

**Runs of the other services** (`AnchorCoordinator.dfy`, `KeyRegistry.dfy`, `Normalizer.dfy`,
`NormalizationRuns.dfy`).
Calls to the coordinator may come with any providers and interleave at every await.

## What the proofs found

- After an exception in anchoring a sealed segment the service never seals again, because the
  predecessor is recorded only after anchoring (`AnchoringThrowIsFinal`). Short of that, one step
  can always bring the predecessor up to date (`CanSettle`), and an idle task whose segment passes
  its checks can always seal it (`SealingGoesOn`).
- When calls of `ingest` and `sweep` overlap, a seal started while another one is past its checks
  fails against the old predecessor, and that ends sealing there for good (`OverlapIsFinal`).
- A snapshot read whose primary key holds a number beyond the safe integers maps, and is then in no
  group, not counted and not dead-lettered (`UnsafeKeyIsLost`). Only snapshot reads with an epoch or
  a row that cannot be serialized are ever lost (`NothingIsLostIff`).
- Two envelopes that tie up to the row key, one of them with a primary key that cannot be
  serialized, make the comparison throw (`ComparisonThrowsIff`) and with it the sort
  (`OrderThrowsIff`). The accumulator admits such envelopes (`FractionalKeysClash`, `ClashIsReached`);
  their database is then never closed again (`ClashIsForever`). A run loses closed segments exactly
  when at some sweep or flush the first segment to close can be ordered and a later one cannot
  (`RunLosesIff`); `SweepCanLose` and `FlushCanLose` are such runs.
- The offset key of the global order reads the sequence number out of a MySQL GTID, but the server
  number out of a MariaDB one, so events of one MariaDB stream with one commit time are ordered by
  the text of their GTIDs. `MariaDbOrderIsTextual` gives the exact condition under which that is the
  right order, `MariaDbInversion` two envelopes that the sort puts the wrong way round.
- Without a GTID the offset key is the binlog position, whatever the file, so an event at the start of
  the next binlog file is put before one with the same commit time near the end of the file before
  (`BinlogOrderIsByPosition`, `BinlogInversion`).
- `parseRange` accepts a range whose ends are swapped. Containment, the printed form and its round
  trip do not suffer; the list stays canonical exactly as `MergeIsCanonicalIff` says. No gap is ever
  overlooked (`NoGapIsOverlooked`), but the alarm is right for every source exactly when no swapped
  range is held, or there is a hole anyway (`AlarmIsExactIff`): a lone 1 beside 5-3 counts as a hole
  (`SwappedRangeLooksLikeAHole`), and 50-3 after 8-10 lowers the watermark to 3, so that a missing 5
  is not listed (`SwappedRangeLowersTheWatermark`). `InternalGapsAreExactIff` and
  `WatermarkIsExactIff` give the exact conditions for the two lists of the result.
- The printed form of a GTID set reads back through the MySQL codec only; through the MariaDB codec
  it always comes back empty (`MariaDbReadsNothingBack`).
- A caller that joins the run of another provider of the same type gets a record its own provider
  may refuse (`JoinedCallerMayGetAnother`). Every caller's own provider vouches for its answer in
  every run exactly when any two providers of one type accept each other's genuine tokens
  (`AnswersAreVouchedIff`).
- The verifier is not total: `RunChecks` states exactly on which inputs it throws, and
  `TheVerifierCanThrow` gives one. Its anchor checks throw on a record that meets the schema when
  the payload cannot be hashed, for example with an empty segment id (`SchemaLetsThroughIff`,
  `NamelessHeadThrows`).
- A scope that does not start at 0 never passes check 4 (`PartialScopeNeverPasses`).
- The verifier does not check that the first object of the first segment links to the all-zero
  hash; any other hash is accepted there (`AnyGenesisBoundaryIsAccepted`). Only the sealer
  establishes it (`SealedGenesisStartsAtZero`).
- A signing instant that does not parse is refused by the key registry and let through by the
  verifier's window test (`RegistryAgreesWithTrustFile`); the payload check that follows the window
  test refuses it after all, so a passing signature is always valid by the registry
  (`PassingMeansRegistryValid`).
- The split-point loop of the Merkle tree runs for ever above 2^30 leaves (`SplitLoopEndsIff`).

## Model

| member | source | states |
|---|---|---|
| TransparencyLog.LargestPowerOfTwoLessThan | packages/anchor-proof/src/transparency-log.ts:79-83 | The 32-bit doubling loop ends, for 1 < n <= 2^30, at the power of two k with k < n <= 2k, the split point of the recursive tree hash. |
| TransparencyLog.SplitLoopEndsIff | packages/anchor-proof/src/transparency-log.ts:79-83 | The 32-bit doubling loop ends if and only if n is at most 2^30; above, its guard holds at every turn. |
| TransparencyLog.PowerBelowIsUnique | packages/anchor-proof/src/transparency-log.ts:79-83 | There is only one such power of two, so the loop and the halving recursion that define the split point agree. |
| TransparencyLog.RootFromInclusion | packages/anchor-proof/src/transparency-log.ts:104-123 | The bit-shifting loop computes the climb from the leaf along the sides read off (index, size - 1), and nothing for an index out of range. |
| TransparencyLog.PathClimbsToRoot | packages/anchor-proof/src/transparency-log.ts:86-123 | Completeness: folding the top-down audit path of leaf i bottom-up gives the top-down tree hash, for every list and every i. |
| TransparencyLog.ClimbFitsTheTree | packages/anchor-proof/src/transparency-log.ts:104-123 | A climb that ends in the hash of a tree of leaf hashes is no longer than the tree is high, by domain separation alone. |
| TransparencyLog.OnlyThePathClimbs | packages/anchor-proof/src/transparency-log.ts:86-123 | Soundness with surplus proof elements: a proof that reaches the root has no surplus, proves the leaf at that index and is its audit path. |
| TransparencyLog.InclusionIsExact | packages/anchor-proof/src/transparency-log.ts:86-123 | For every index, leaf hash and proof of any length, the check reaches the tree hash if and only if the index is in range, the leaf is the one at that index and the proof is exactly its audit path. |
| TransparencyLog.RootBindsLeaves | packages/anchor-proof/src/transparency-log.ts:86-93 | Two lists of leaf hashes of one size with the same root are equal. |
| TransparencyLog.TreeHashIsStandard | packages/anchor-proof/src/transparency-log.ts:62-93 | For every list of payloads the tree hash is the one section 2.1 of RFC 6962 defines, with its bytes 0 and 1, its split and its order. |
| LogProvider.VerifyTransparencyLogToken | packages/anchor-proof/src/transparency-log.ts:146-175 | A token is accepted if and only if payload, proof, head and certificate name one non-empty log and one ed25519 key, the head is well formed with a safe size and a real time, its signature is the one made under that key over exactly this head, and the path climbs from the payload's leaf to its root; the answer is the signed time. |
| LogProvider.RejectionNamesTheFailure | packages/anchor-proof/src/transparency-log.ts:159-166 | A token that is good but for its signature is refused as such. |
| LogProvider.IssuedTokenVerifies | services/anchoring/src/transparency-log.ts:84-118 | Every token the provider issues verifies exactly when its time has the RFC 3339 shape and is a real instant, whatever was logged before; with more leaves than the largest safe integer it does not. |
| LogProvider.AcceptedTokenWasLogged | packages/anchor-proof/src/transparency-log.ts:104-175 | When the log signs heads of prefixes of its leaves only and no signature is forged, a token is accepted if and only if it shows a head the log signed, in good form, and names the payload's own leaf under it with exactly that leaf's audit path; nothing is supposed about the token's root. |
| LogProvider.DevTransparencyLogProvider.Anchor | services/anchoring/src/transparency-log.ts:84-108 | A hash is appended as the last leaf and its token commits to index and root of the grown log; every head ever signed stays one of a prefix of the leaves; anything else changes nothing. |
| LogProvider.DevTransparencyLogProvider.VerifyToken | services/anchoring/src/transparency-log.ts:110-118 | A token passes exactly when it is for this hash, stands under this log's certificate and records the signed time; unless a signature was forged, its payload was logged here at that index. |
| Intervals.MergeIntervals | services/cdc-collector/src/completeness/gtid.ts:86-97 | The sort-and-extend loop computes the merge of the list. |
| Intervals.MergeIsCanonical | services/cdc-collector/src/completeness/gtid.ts:86-97 | The merge of intervals with ascending ends is sorted, disjoint, not even adjacent, and covers exactly the same numbers. |
| Intervals.MergeCovers | services/cdc-collector/src/completeness/gtid.ts:32-97 | With swapped ends allowed as well, merging covers exactly the same numbers. |
| Intervals.MergeOnceMore | services/cdc-collector/src/completeness/gtid.ts:86-124 | Merging an interval into what was merged before gives the same list as merging everything at once, swapped ends or not. |
| Intervals.MergeForgetsOrder | services/cdc-collector/src/completeness/gtid.ts:86-97 | The same intervals in any order merge to the identical list, swapped ends or not. |
| Intervals.CanonicalIsUnique | services/cdc-collector/src/completeness/gtid.ts:86-97 | Two canonical lists that cover the same numbers are the same list. |
| Intervals.MergeIsCanonicalIff | services/cdc-collector/src/completeness/gtid.ts:32-97 | With swapped ends allowed, as the parser allows them: adding an interval keeps a canonical list canonical if and only if its ends ascend or it starts inside or next to what is held, and then the list is unchanged. |
| Intervals.SubtractRange | services/cdc-collector/src/completeness/gtid.ts:100-115 | What is left covers exactly the numbers of the range that no cover holds, in intervals with ascending ends. |
| Intervals.WidthsCountPoints | services/cdc-collector/src/completeness/gtid.ts:153-157 | The widths of a merged list add up to at most the number of covered numbers, and to exactly that many when and only when no range is swapped by more than one. |
| Gtid.AdditionsDenoteTheirUnion | services/cdc-collector/src/completeness/gtid.ts:117-134 | After any sequence of additions a key is present exactly when something was added for it and a number is contained exactly when some addition held it; and the lists are canonical when no ends are swapped. |
| Gtid.HeldIsTheMerge | services/cdc-collector/src/completeness/gtid.ts:117-134 | However additions interleave, the list held for a key is the merge of all that was added for it. |
| Gtid.AdditionsAreSeparate | services/cdc-collector/src/completeness/gtid.ts:117-134 | Whatever is added, swapped ends or not, each interval held for a key ends more than one before every later one starts. |
| Gtid.CanonicalMapsAreMerged | services/cdc-collector/src/completeness/gtid.ts:86-134 | A set whose lists are canonical is one that merging again does not change. |
| Gtid.AdditionOrderIsIrrelevant | services/cdc-collector/src/completeness/gtid.ts:117-191 | Reordering the additions, swapped ends or not, gives the identical lists and the identical printed form. |
| GtidCodec.PrintParseRoundTrip | services/cdc-collector/src/completeness/gtid.ts:32-191 | Printing a set that merging does not change, with lower-case keys free of separators and space, and reading it with the MySQL codec, gives the same keys and lists, with decimal numerals of any size. |
| GtidCodec.ParsedSetRoundTrips | services/cdc-collector/src/completeness/gtid.ts:41-191 | Every set read by the MySQL codec, swapped ranges included, survives printing and reading again. |
| GtidCodec.MariaDbReadsNothingBack | services/cdc-collector/src/completeness/gtid.ts:63-191 | Read through the MariaDB codec, the printed form of any set with such keys is the empty set, swapped ranges or not. |
| GtidCodec.MariaDbTokenIff | services/cdc-collector/src/completeness/gtid.ts:63-69 | A MariaDB token is read exactly when it spells three numerals with hyphens, and then adds the third to the set of the first. |
| GtidCodec.MySqlTokenLowersItsKey | services/cdc-collector/src/completeness/gtid.ts:41-51 | The key of a MySQL token is what stands before its colon with the ASCII capitals lowered. |
| GtidCodec.SpaceIsIgnored | services/cdc-collector/src/completeness/gtid.ts:53-61 | White space anywhere in an executed set changes nothing. |
| GtidCodec.TextListsKeysInOrder | services/cdc-collector/src/completeness/gtid.ts:186-191 | The printed form lists every key of the set once, in ascending order, each with its intervals. |
| GtidCodec.HyphenIff | services/cdc-collector/src/completeness/gtid.ts:186-191 | A single number is printed as its numeral, and only a range of two different ends has a hyphen. |
| Watcher.GtidSet.Add | services/cdc-collector/src/completeness/gtid.ts:117-124 | The map is updated by merging the interval into its key's list, and stays canonical for ascending ends. |
| Watcher.GtidSet.ContainsNumber | services/cdc-collector/src/completeness/gtid.ts:149-151 | Membership in the interval list is membership in the set it stands for. |
| Watcher.GtidSet.Count | services/cdc-collector/src/completeness/gtid.ts:153-157 | The count is the sum of the widths: never more than the numbers held, and just as many exactly when no range is swapped by more than one. |
| Watcher.GtidSet.InternalGapKeys | services/cdc-collector/src/completeness/gtid.ts:160-166 | The keys with several intervals: every key with an unconsumed number between two consumed ones is among them, and no other exactly when every key with several intervals has two with ascending ends. |
| Watcher.GtidSet.MissingBelowWatermark | services/cdc-collector/src/completeness/gtid.ts:169-184 | Exactly the source's numbers of consumed keys that are at or below the end of the key's last interval and not consumed; for a key whose watermark fits, exactly those below a consumed number and not consumed. |
| Gaps.HoleIff | services/cdc-collector/src/completeness/gtid.ts:160-166 | In any set built by additions a key has an unconsumed number between two consumed ones if and only if two of its intervals have ascending ends. |
| Gaps.InternalGapsAreExactIff | services/cdc-collector/src/completeness/gtid.ts:160-166 | The keys with several intervals are exactly the keys with a hole if and only if each of them has two intervals with ascending ends. |
| Gaps.WatermarkIsExactIff | services/cdc-collector/src/completeness/gtid.ts:144-184 | What is unconsumed below the watermark is what is missing, for every source, if and only if the last interval ends inside, or right before, the last one with ascending ends. |
| Gaps.NoGapIsOverlooked | services/cdc-collector/src/completeness/watcher.ts:123-143 | Whatever was consumed and whatever the source executed: if a number is missing, a gap is detected, and the key is named or the number listed. |
| Gaps.AlarmIsExactIff | services/cdc-collector/src/completeness/watcher.ts:123-143 | A gap is detected exactly when there is one, for every source, if and only if no swapped range is held or some key has a hole. |
| Gaps.SwappedRangeLooksLikeAHole | services/cdc-collector/src/completeness/gtid.ts:32-166 | Number 1 and the swapped range 5-3 consumed: the key counts as having a hole although nothing between consumed numbers is missing. |
| Gaps.SwappedRangeLowersTheWatermark | services/cdc-collector/src/completeness/gtid.ts:32-184 | 8-10 and then 50-3 consumed: an executed, unconsumed 5 is missing and is not listed. |
| Gaps.LowWatermarkCanFit | services/cdc-collector/src/completeness/gtid.ts:32-184 | 3-10 and then 50-3 consumed: the watermark 3 is below the highest consumed number, and what is listed is right all the same. |
| Watcher.CompletenessWatcher.ObserveConsumed | services/cdc-collector/src/completeness/watcher.ts:85-90 | The consumed set grows by the parsed token, which becomes the last consumed offset key; a null or empty GTID is skipped. |
| Watcher.CompletenessWatcher.ComputeGap | services/cdc-collector/src/completeness/watcher.ts:123-143 | The result is what the two rules give; no gap is overlooked; the keys named are exactly those with a hole if and only if each key with several intervals has two ascending ones; where the watermark fits the numbers listed are exactly the missing ones; with no swapped range, or a hole, the alarm is right. |
| Watcher.CompletenessWatcher.CheckGap | services/cdc-collector/src/completeness/watcher.ts:145-165 | An alarm is raised, once, for each key with several intervals and each missing range that this check reports and no earlier check of the watcher did, and for nothing else. |
| Watcher.EachSignatureAlarmsOnce | services/cdc-collector/src/completeness/watcher.ts:145-165 | Over any run of checks every signature ever found is alarmed exactly once. |
| Watcher.SignaturesTellApart | services/cdc-collector/src/completeness/watcher.ts:149-152 | Two findings have one signature exactly when they are the same key, or the same key, start and end; a key never shares one with a range. |
| Watcher.EachFindingAlarmsOnce | services/cdc-collector/src/completeness/watcher.ts:123-165 | Over any run of checks every reported key and every reported range is alarmed exactly once, by the first check that reports it, and nothing else is alarmed. |
| CanonicalWriter.CompareByCodePointLoop | packages/canonical/src/serialize.ts:30-40 | The index loop computes the lexicographic comparison of code points. |
| CanonicalWriter.KeyMap | packages/canonical/src/serialize.ts:89-98 | The key map holds the defined members in order, and filling it fails exactly when a kept key repeats. |
| CanonicalWriter.Write | packages/canonical/src/serialize.ts:66-109 | The recursive writer produces the text of the value's sorted tree, and throws exactly when there is none. |
| CanonicalWriter.SerializeCanonical | packages/canonical/src/serialize.ts:107-109 | Throws exactly on a value without a meaning; read by an independent JSON reader, the text is one value that stands for that meaning, members as a map, with keys strictly ascending by code point on every level. |
| JsonReading.SerializedReadsBack | packages/canonical/src/serialize.ts:42-109 | What was serialized is what is read: escapes, keywords, decimal integers, items and members come back as they were, and the keys of every object ascend. |
| JsonReading.StandsForOne | packages/canonical/src/serialize.ts:66-109 | A tree that is read stands for one meaning only, so the text determines it. |
| JsonReading.BeforeIsNegative | packages/canonical/src/serialize.ts:30-40 | The comparison of keys is negative exactly when the first key is smaller at the first difference by code point, or a proper prefix. |
| JsonReading.OrdersDisagree | packages/canonical/src/serialize.ts:25-40 | Beyond the basic plane the order of keys and JavaScript's order of strings disagree. |
| Texts.StringOrderIsByUnits | packages/cce-model/src/order.ts:29-31 | JavaScript's order of strings is that of their UTF-16 units, at the first difference or by length. |
| CanonicalReading.CanonizeKeepsMeaning | packages/canonical/src/serialize.ts:66-105 | Sorting members by code point keeps the reference meaning, on every nesting level, with the same error inputs. |
| CanonicalReading.SerializableIffMeaningful | packages/canonical/src/serialize.ts:66-109 | A value serializes exactly when it has a meaning: safe integers, supported types and no repeated key throughout. |
| CanonicalReading.TreeIsReadable | packages/canonical/src/serialize.ts:42-105 | The printed text can be read back: two sorted trees followed by anything that may follow a value print alike only if trees and continuations are equal. |
| CanonicalReading.SerializationIsUnambiguous | packages/canonical/src/serialize.ts:30-109 | Two serializable values give the same string if and only if they are equal up to member order, dropped members and number flavour. |
| CanonicalReading.MemberOrderIsIrrelevant | packages/canonical/src/serialize.ts:86-109 | The same members in any order serialize to the same text, or throw in both orders. |
| ExactDecimal.ScaledIsExact | packages/canonical/src/decimal.ts:50-58 | Scaling loses nothing: the integer is the exact rational value times ten to the scale, sign included. |
| ExactDecimal.ExactDecimalIff | packages/canonical/src/decimal.ts:10-18 | An exact decimal is a sign or none, digits without a leading zero and a point with digits or nothing, negative zero left out. |
| ExactDecimal.ComparisonIsExact | packages/canonical/src/decimal.ts:10-74 | The comparison throws exactly on strings that are not exact decimals and otherwise is the sign of the exact difference. |
| ExactDecimal.ComparisonFlips | packages/canonical/src/decimal.ts:60-74 | Comparing the other way round negates the result, or throws alike, so any two exact decimals are comparable. |
| ExactDecimal.ComparisonIsTransitive | packages/canonical/src/decimal.ts:60-74 | The order is transitive, strictly where one step is strict, although every pair picks its own scale. |
| ExactDecimal.EqualityIsOfValues | packages/canonical/src/decimal.ts:76-79 | Two exact decimals are equal exactly when their values are. |
| CceOrder.CaptureIsTheMatch | packages/cce-model/src/order.ts:16-21 | The captured digits are the leftmost, longest match of the offset pattern, and nothing is captured exactly when nothing matches. |
| CceOrder.ComparisonThrowsIff | packages/cce-model/src/order.ts:33-71 | The comparison throws exactly when the six keys before the row key tie and one of the two row keys cannot be computed. |
| CceModel.RowKeyHashIff | packages/canonical/src/snapshot.ts:62-70 | A row key can be computed exactly when schema, name and primary key have a meaning. |
| HashedTexts.RowTextSays | packages/canonical/src/snapshot.ts:62-70 | A row key hash is over a text that says schema, name and primary key of the row, an absent key being the empty object. |
| CceOrder.ComparisonIsLexicographic | packages/cce-model/src/order.ts:33-71 | The branches of the comparison are one lexicographic order over eight keys. |
| CceOrder.ComparisonPutsFirst | packages/cce-model/src/order.ts:33-71 | An envelope goes first exactly when the first of the eight keys that differs says so: strings by UTF-16 units, the offset number numerically, and reads of no epoch last. |
| CceOrder.KeysAreRead | packages/cce-model/src/order.ts:33-71 | Each key of the order is read from its named place in the envelope; the row key is the hash of the first changed object, or empty. |
| CceOrder.OffsetIsTheFirstThere | packages/cce-model/src/order.ts:16-27 | GTID goes before LSN before SCN, and the resume token is used when nothing else is there. |
| CceOrder.CompareCceIsConsistent | packages/cce-model/src/order.ts:16-71 | It throws on a pair whichever way round; where it does not throw it is antisymmetric and transitive, and envelopes it cannot tell apart agree in every compared key. |
| CceOrder.OrderThrowsIff | packages/cce-model/src/order.ts:33-76 | Sorting throws exactly when some two of the envelopes make the comparison throw, and otherwise sorts by one total order. |
| CceOrder.ArrivalOrderIsIrrelevant | packages/cce-model/src/order.ts:33-76 | Envelopes with distinct ids come out in the same order, or the sort throws, however they arrive. |
| Clashes.FractionalKeysClash | packages/cce-model/src/order.ts:33-76 | Two snapshot reads of one database with one commit time and position and the primary key {id: 1.5}: comparing and sorting them throws. |
| Clashes.ClashIsReached | services/evidence-writer/src/accumulator.ts:156-183 | The accumulator admits such reads, and after two of them its buffer cannot be ordered. |
| OffsetOrder.MySqlNumberIsSequence | packages/cce-model/src/order.ts:16-21 | For a MySQL GTID the offset number is its sequence number. |
| OffsetOrder.MariaDbNumberIsServer | packages/cce-model/src/order.ts:16-21 | For a MariaDB GTID the offset number is its server number. |
| OffsetOrder.CommitTimeDecides | packages/cce-model/src/order.ts:33-37 | With different commit times nothing else is looked at. |
| OffsetOrder.MySqlOrderIsNumeric | packages/cce-model/src/order.ts:16-43 | Two transactions of one MySQL source with equal commit times are put in the order of their sequence numbers. |
| OffsetOrder.MariaDbOrderIsTextual | packages/cce-model/src/order.ts:16-43 | Two envelopes of one MariaDB stream with equal commit times and sequence numbers n < m are put in that order if and only if n is at most m cut to as many digits as n has. |
| OffsetOrder.MariaDbInversion | packages/cce-model/src/order.ts:16-76 | Two envelopes committed together with sequence numbers 99 and 152: the comparison and the sort put 152 first. |
| OffsetOrder.BinlogOrderIsByPosition | packages/cce-model/src/order.ts:16-43 | Of two envelopes without a GTID committed together the one at the smaller binlog position goes first, whatever their files; the files decide only at equal positions. |
| OffsetOrder.BinlogInversion | packages/cce-model/src/order.ts:16-76 | Position 900 of file 1 and position 4 of file 2: the comparison and the sort put file 2 first. |
| CceModel.VerifyCceIsSoundness | packages/cce-model/src/verify.ts:11-27 | Both hash checks pass exactly when the envelope can be serialized, carries the hash of its core and links it to its effective predecessor. |
| CceModel.RowHashBindsLink | packages/canonical/src/chain.ts:14-21 | Sound envelopes share a row hash if and only if their hashed content means the same and their predecessors are the same. |
| CceModel.FieldReadsMeaning | packages/cce-model/src/verify.ts:11-15 | Every property read from an envelope is determined by the meaning that is hashed. |
| ManifestModel.ManifestHashBindsManifest | packages/evidence/src/manifest.ts:102-129 | Two manifests have the same hash if and only if they are equal in every field. |
| ManifestSerialization.ManifestHashesIffSafe | packages/evidence/src/manifest.ts:102-129 | Hashing a manifest throws exactly when one of its numbers is not a safe integer. |
| HashedTexts.ManifestTextSays | packages/evidence/src/manifest.ts:102-129 | The hashed text of a manifest, read back, says every field under its name, lists and nested objects included, and nothing else. |
| ManifestBuilder.CrossCheck | packages/evidence/src/manifest.ts:41-82 | No problem is found exactly when counts, order, ids, hashes and ends of lists and objects agree. |
| ManifestBuilder.BuildSegmentManifest | packages/evidence/src/manifest.ts:85-155 | A manifest is built exactly when one exists that selects these fields, has the recomputed hash, the right predecessor shape and a valid schema. |
| SegmentChain.CheckObject | packages/evidence/src/chain.ts:64-118 | One turn reports each check's truth and exactly the failures located at that object. |
| SegmentChain.VerifySegmentChain | packages/evidence/src/chain.ts:51-122 | Accepts exactly non-empty segments of sound, linked objects described by their list entries; the failures are exactly those of each rule at each object. |
| CrossSegment.VerifyCrossSegment | packages/evidence/src/cross-segment.ts:89-133 | Passes exactly on a true link, or on a genesis segment without predecessor, and throws exactly when a named predecessor names no predecessor of its own where one is needed or holds a hash field that is no hash. |
| CrossSegment.SegmentHashThrowsIff | packages/evidence/src/cross-segment.ts:44-63 | A manifest has no segment hash exactly when it needs a predecessor and names none, or one of its three hash fields is no hash. |
| CrossSegment.SegmentHashBinds | packages/evidence/src/cross-segment.ts:44-63 | Equal segment hashes mean equal manifest hash, last row hash and previous segment hash, and conversely. |
| CrossSegment.HeadIs | packages/evidence/src/cross-segment.ts:44-74 | A manifest has exactly the head whose hash is over manifest hash, last row hash and the predecessor's segment hash, all zero for a genesis segment, in this order. |
| Verifier.RecomputeManifest | packages/verifier/src/verify-segments.ts:57-104 | Passes exactly when hash, schema, counts, order, ends and objects hold, names the segment otherwise, throws exactly when hashing does. |
| Verifier.RecomputeSegment | packages/verifier/src/verify-segments.ts:111-141 | Checks 1 and 2 together pass exactly when the object chain holds, each locating the objects that fail it; check 3 is the manifest's verdict. |
| Continuity.RecomputeNoMissingSegment | packages/verifier/src/verify-continuity.ts:37-72 | Passes exactly when every sequence of a non-empty scope occurs once and no other occurs; otherwise names exactly the ids of segments that share a sequence and the missing and foreign sequences. |
| Continuity.SortedIsNumbered | packages/verifier/src/verify-continuity.ts:32-72 | Segments that pass are, once sorted, the scope counted out. |
| Continuity.RecomputeCrossSegment | packages/verifier/src/verify-continuity.ts:75-95 | Passes exactly when every segment links to the one found under the preceding sequence, otherwise names exactly those that do not; throws exactly when a link check does. |
| Continuity.PartialScopeNeverPasses | packages/verifier/src/verify-continuity.ts:37-95 | A complete set of segments over a scope that starts anywhere but at 0 has a segment that fails check 4. |
| Continuity.RecomputeNoMissingEvent | packages/verifier/src/verify-continuity.ts:98-157 | Passes exactly when every summary and object denies a gap, offset ranges are those of the objects and no offset is reused; otherwise names exactly the segments that break a rule and the envelopes that do not deny a gap. |
| Verdicts.NoMissingEventIff | packages/verifier/src/verify-continuity.ts:98-157 | Check 6 passes exactly when every object denies a gap, the summary does, the offset range runs from the first object's offset to the last one's, and no segment starts at the offset its predecessor ended with. |
| TamperEvidence.RunChecks | packages/verifier/src/verify.ts:77-127 | Checks 1 to 5 over a scope from 0 answer exactly whether the segments are acceptable, and throw exactly on an unsafe number or when a link check meets a predecessor without a hash. |
| Verdicts.AcceptedIff | packages/verifier/src/verify.ts:77-127 | Acceptance written out from digests and fields: every segment's objects are linked, hashed and listed, its manifest is true to itself and to them, the sequences are the scope counted out, and each segment carries the hash of the head before it. |
| Verdicts.SegmentStandsIff | packages/verifier/src/verify-segments.ts:57-141 | What the first three checks demand of one segment: event hashes of the stored content, row hashes over them and their predecessors, list entries, counts, ends and the manifest's own hash. |
| TamperEvidence.TheVerifierCanThrow | packages/verifier/src/verify-continuity.ts:75-95 | Two segments, the second naming a first that names no predecessor itself: the checks throw. |
| TamperEvidence.AcceptedIsChain | packages/verifier/src/verify.ts:111-127 | Acceptance is exactly a chain from genesis, counted out and linked step by step. |
| TamperEvidence.HeadBindsHistory | packages/verifier/src/verify-segments.ts:57-141 | Two accepted sets of segments that end in the same segment hash have the same length, the same manifests and objects equal in everything that is hashed. |
| TamperEvidence.RowsChainThroughBoundary | packages/evidence/src/cross-segment.ts:126-129 | In an accepted chain the row hashes run on through every segment boundary. |
| Accumulation.PadSix | services/evidence-writer/src/writer.ts:80-82 | The padded numeral reads back as its number, beyond six digits too, and has six digits up to 999999. |
| Accumulation.EveryRunBalances | services/evidence-writer/src/accumulator.ts:143-274 | In every run, with operations that throw, and for every database the closed segments are numbered 0, 1, 2, ..., hold 1 to maxEvents objects with aligned lists, and the admitted envelopes are exactly those closed or still buffered; closed segments are those handed over and those lost to an exception. |
| AccumulatorRuns.FlushLeavesNothing | services/evidence-writer/src/accumulator.ts:198-208 | A flush throws exactly when some buffer cannot be ordered; otherwise exactly the flushed databases have no open segment. |
| AccumulatorRuns.AddThrowsIff | services/evidence-writer/src/accumulator.ts:156-183 | Adding throws exactly when the buffer to be closed by age, or else by count with the new envelope in it, cannot be ordered; no closed segment is lost by it. |
| AccumulatorRuns.SweepThrowsIff | services/evidence-writer/src/accumulator.ts:186-195 | A sweep throws exactly when some buffer whose time is up cannot be ordered. |
| AccumulatorRuns.RunLosesIff | services/evidence-writer/src/accumulator.ts:156-208 | A run loses a closed segment if and only if at some sweep the first aged buffer, or at some flush the first buffer, can be ordered and a later one cannot. |
| Clashes.SweepCanLose | services/evidence-writer/src/accumulator.ts:156-195 | A run of three reads for two databases and a sweep: the segment of the first is closed, forgotten and handed to nobody. |
| Clashes.FlushCanLose | services/evidence-writer/src/accumulator.ts:156-208 | The same with a flush, without waiting for the age cap. |
| AccumulatorRuns.ClashIsForever | services/evidence-writer/src/accumulator.ts:156-211 | Once a buffer cannot be ordered no continuation of the run closes it, or any later segment of its database. |
| AccumulatorRuns.IdentifiedRunsLoseNothing | services/evidence-writer/src/accumulator.ts:143-274 | When every arriving row can be identified, no run throws: every closed segment is handed over and no envelope is refused by an exception. |
| AccumulatorRuns.OneDatabaseIsNumbered | services/evidence-writer/src/accumulator.ts:143-274 | When all envelopes are of one database the closed segments are too, and segment i has number i. |
| AccumulatorRuns.OneDatabaseLosesNothing | services/evidence-writer/src/accumulator.ts:143-208 | With one database an exception never takes a closed segment with it. |
| Accumulation.ArrivalOrderIsForgotten | services/evidence-writer/src/accumulator.ts:211-274 | The same envelopes in any order of arrival close to the identical segment, or throw alike. |
| Accumulator.SegmentAccumulator.Summarize | services/evidence-writer/src/accumulator.ts:232-241 | One pass counts degraded and compromised envelopes, collects the sorted distinct reasons and tells whether any gap is flagged. |
| Accumulator.SegmentAccumulator.Seal | services/evidence-writer/src/accumulator.ts:211-274 | The closed segment describes the ordered buffer and the database's next number is taken; when the ordering throws nothing changes. |
| Accumulator.SegmentAccumulator.Add | services/evidence-writer/src/accumulator.ts:156-183 | An inadmissible object changes nothing. Any other closes the open segment by the time cap exactly when its opening and the present instant parse and lie at least maxAgeMs apart, joins the segment then open or a new one with the next number, and closes that one by the count cap exactly when it holds maxEvents objects; or the add throws with exactly the specified part of this done. |
| Accumulator.SegmentAccumulator.Sweep | services/evidence-writer/src/accumulator.ts:186-195 | Exactly the segments with objects whose opening and sweep instants parse and lie at least maxAgeMs apart are closed, by the time cap, in the order their map holds them, and every other stays as it was; when one cannot be ordered the sweep throws with those before it closed. |
| Accumulator.SegmentAccumulator.FlushAll | services/evidence-writer/src/accumulator.ts:198-208 | Exactly the segments with objects are closed, by the flush, and none stays open; when one cannot be ordered the flush throws with those before it gone. |
| AccumulatorSteps.ClosedCarries | services/evidence-writer/src/accumulator.ts:211-274 | A closed segment is the open one, described outright: its names, instants and trigger, its envelopes in the global order, lists and ends position by position, how many are degraded and how many compromised, the reasons given in ascending order, and whether any reports a gap. |
| AccumulatorSteps.AddIsExact | services/evidence-writer/src/accumulator.ts:156-183 | What an add that does not throw closes, opens and leaves, from the two clock readings and the caps. |
| AccumulatorSteps.ThrowingAddLeaves | services/evidence-writer/src/accumulator.ts:156-183 | An add that throws has closed nothing, and its envelope stays in the buffer unless the aged segment was in the way. |
| AccumulatorSteps.SweepIsExact | services/evidence-writer/src/accumulator.ts:186-195 | What a sweep that does not throw closes and leaves, from the opening and sweep instants and the age cap. |
| AccumulatorSteps.ThrowingSweepStops | services/evidence-writer/src/accumulator.ts:186-195 | A sweep that throws has done what the sweep of the segments before the offending one does, and no more. |
| AccumulatorSteps.FlushIsExact | services/evidence-writer/src/accumulator.ts:198-208 | What a flush that does not throw closes. |
| AccumulatorSteps.EveryCloseIsExplained | services/evidence-writer/src/accumulator.ts:156-208 | Over any run: a segment closed by the time cap had been open for maxAgeMs from the add that opened it, one closed by the count cap holds maxEvents objects, and the others were closed by a flush; the trigger says which. |
| AccumulatorSteps.AdmittedIff | services/evidence-writer/src/accumulator.ts:102-115 | Admitted are exactly the transactions with a database, an engine, an id, two hashes, a fidelity state and an offset key. |
| Sealing.EstablishChain | services/evidence-writer/src/sealer.ts:80-96 | The loop re-chains the objects from the boundary and recomputes the hash list and end hashes, throwing exactly when the recursion does. |
| Sealing.ChainFromLinks | services/evidence-writer/src/sealer.ts:80-96 | Re-chaining succeeds exactly when boundary and event hashes are hashes, and links every object to the one before without touching its core. |
| Sealing.CheckSegment | services/evidence-writer/src/sealer.ts:123-159 | Names the first of predecessor, chain, manifest and link that rejects, throws exactly where one of them does, and otherwise yields a plan, exactly when some plan meets every condition. |
| Sealing.PlanIsUnique | services/evidence-writer/src/sealer.ts:123-159 | One segment, predecessor and instant allow at most one plan. |
| SealCondition.SegmentPassesIff | services/evidence-writer/src/sealer.ts:123-159 | A segment from the accumulator passes if and only if it comes next, every object carries the hash of its content, and its manifest can be hashed and is valid. |
| SealCondition.PassedManifestTells | services/evidence-writer/src/sealer.ts:80-159 | The manifest of a segment that passed takes over its fields one by one with the instant of sealing, names the predecessor by id, number and segment hash, and lists row hashes that run on from the boundary, each over the one before and the object's event hash. |
| SealCondition.ArrivalOrderGivesTheSameHead | services/evidence-writer/src/sealer.ts:80-159 | When a buffer closes and passes with a plan, the same envelopes in any order of arrival, sealed at the same instants after the same predecessor, close and pass with that plan and no other: same objects, row hashes, manifest and segment hash. |
| EvidenceWriting.PreparedIsSound | services/evidence-writer/src/writer.ts:145-177 | Only a valid envelope whose hashes verify is prepared for writing, and the written copy with its back-references still verifies. |
| EvidenceWriting.PreparesEpochIff | services/evidence-writer/src/writer.ts:145-177 | An epoch manifest is prepared exactly when it is valid, its id names a key and its content has a text; key and text are those. |
| EvidenceWriting.PreparesIff | services/evidence-writer/src/writer.ts:145-177 | An envelope is prepared exactly when it is a transaction with a source, valid and sound, under the key of its database, segment and place, as a copy that differs in its two back-references only. |
| HashedTexts.EnvelopeBytesSay | services/evidence-writer/src/writer.ts:145-177 | The stored bytes of an envelope, read back, say its core member by member, its evidence, and nothing else. |
| EvidenceWriting.EvidenceWriter.Append | services/evidence-writer/src/writer.ts:186-213 | An envelope or a snapshot epoch manifest is stored under its new key, or in the dead-letter queue, or the caller gets an error because the queue failed; never none of these. |
| EvidenceWriting.KindsAreApart | services/evidence-writer/src/writer.ts:59-82 | An envelope and an epoch manifest never get the same key. |
| EvidenceWriting.EpochBytesBind | services/evidence-writer/src/writer.ts:145-179 | The stored bytes of two epoch manifests are equal exactly when the manifests mean the same. |
| Sealer.SegmentSealer.Seal | services/evidence-writer/src/sealer.ts:123-186 | A segment is SEALED exactly when it passed, its objects are fit to be written at their listed keys, and these and the manifest's are new, different and not down; then all objects and the manifest were written at those keys in order and the head emitted. Nothing is written before it passed; a refusal names the check that failed; a broken-off seal has written objects of the plan in order and no more; each refusal raises its one alarm and emits no head. |
| HashedTexts.ManifestBytesSay | services/evidence-writer/src/sealer.ts:161-180 | The stored bytes of a manifest, read back, say every field and its hash. |
| SealedChains.SealedRunIsAccepted | services/evidence-writer/src/sealer.ts:80-186 | Segments sealed one after the other pass checks 1 to 5 with the scope [0, k], in whatever order the verifier gets them. |
| SealedChains.NoMissingEventIsExact | packages/verifier/src/verify-continuity.ts:98-157 | For such segments, handed over in any order, check 6 passes if and only if every object denies a gap and no segment starts at the offset its predecessor ended with. |
| SealedChains.SealedGenesisStartsAtZero | services/evidence-writer/src/sealer.ts:132-133 | The first object of a sealed genesis segment links to the all-zero hash. |
| SealedChains.AnyGenesisBoundaryIsAccepted | packages/evidence/src/cross-segment.ts:97-101 | The verifier accepts a genesis segment chained from any other hash as well. |
| StoreKeys.SlotKeysDiffer | services/evidence-writer/src/writer.ts:80-82 | Object, manifest and anchor keys of one database are equal only for the same place. |
| Service.OneActive | services/evidence-writer/src/service.ts:85-122 | At most one task at a time is past the checks of a seal, under every interleaving. |
| Service.RunsAreFailClosed | services/evidence-writer/src/service.ts:85-122 | In every interleaved run the sealed segments are numbers 0 to k-1, each sealed against the one before, and every failed segment comes after them. |
| Service.FailureIsFinal | services/evidence-writer/src/service.ts:85-122 | Once a segment has failed to seal, no continuation of the run seals a later one. |
| ServiceProgress.AnchoringThrowIsFinal | services/evidence-writer/src/service.ts:97-122 | After an exception in signing, anchoring or writing the anchor of a sealed segment no continuation of the run seals another segment. |
| ServiceProgress.OverlapIsFinal | services/evidence-writer/src/service.ts:85-122 | A seal started while another task is past its checks fails; its segment and all later ones are never sealed in any continuation. |
| ServiceProgress.OverlapCanFail | services/evidence-writer/src/service.ts:85-122 | Whenever one task is past its checks, every other task with a segment to start on can take that failing step. |
| ServiceProgress.StuckForever | services/evidence-writer/src/service.ts:97-122 | Out of date with every task idle or broken: the service stays so, and its log stays as it is, in every continuation. |
| ServiceProgress.CanSettle | services/evidence-writer/src/service.ts:97-122 | Out of date but not stuck, one step of some task brings the predecessor up to date. |
| ServiceProgress.CanSealNext | services/evidence-writer/src/service.ts:97-122 | With the predecessor up to date, an idle task whose segment passes its checks is at the next number and there are steps that seal it. |
| ServiceProgress.SealingGoesOn | services/evidence-writer/src/service.ts:85-122 | From every reachable state with an idle task at a passing segment some continuation seals one more segment. |
| Service.KeysAreAlwaysNew | services/evidence-writer/src/service.ts:85-122 | No write of any run is refused because its key exists. |
| ServiceStore.NothingIsForgotten | services/evidence-writer/src/service.ts:85-122 | In every interleaved run every segment the accumulator handed over belongs to a task, and whatever a task has gone past is sealed or recorded as failed; no segment is skipped. |
| ServiceStore.StepWritesItsTarget | services/evidence-writer/src/service.ts:85-122 | A step adds to the store exactly the key it was about to write, which was not there, or nothing. |
| ServiceStore.SealedIsStored | services/evidence-writer/src/service.ts:85-122 | At every moment of every interleaved run all objects and the manifest of every sealed segment are in the store. |
| ServiceVerified.SealerWritesToSlots | services/evidence-writer/src/sealer.ts:161-178 | The keys the writer and the sealer compute are the places of the state machine and the keys the manifest lists. |
| ServiceVerified.EveryRunVerifies | services/evidence-writer/src/service.ts:85-122 | At every moment of every run what is sealed, handed over in any order, passes checks 1 to 5, and check 6 exactly when no object leaves a gap open and no offset is reused. |
| ServiceVerified.NextPassesIff | services/evidence-writer/src/sealer.ts:123-159 | In every reachable state an emitted segment passes its checks if and only if it comes next after the recorded predecessor, every object carries the hash of its content, and its manifest builds. |
| Worm.InMemoryWormStore.PutImmutable | infra/worm/src/memory.ts:59-73 | A new key is stored with the default retention and no hold; an existing one is refused and nothing changes. |
| Worm.InMemoryWormStore.ExtendRetention | infra/worm/src/memory.ts:93-103 | Retention changes only to an instant not before the present one, never on an open-ended object. |
| Worm.InMemoryWormStore.SetLegalHold | infra/worm/src/memory.ts:105-108 | A hold is set or lifted on an object that is there, and nothing else changes. |
| Worm.InMemoryWormStore.Delete | infra/worm/src/memory.ts:110-122 | An object goes exactly when it is there, not held, and its retention is over. |
| Worm.WrittenStays | infra/worm/src/memory.ts:59-122 | Over any run of operations without a deletion request past the original retention, an object reads back unchanged and its retention never shortens. |
| Worm.HeldStays | infra/worm/src/memory.ts:105-122 | A held object survives every run that does not lift the hold. |
| Worm.DeletedOnlyWhenExpired | infra/worm/src/memory.ts:59-122 | A run that loses an object holds a deletion of it past its original retention, at a moment when it was expired and not held. |
| AnchorService.RequestAnchor | services/anchoring/src/anchor-service.ts:95-118 | Anchored is answered if and only if the provider really returned a well-formed token of its type for exactly this hash and verifies it. |
| AnchorService.PendingIff | services/anchoring/src/anchor-service.ts:95-118 | Pending is answered exactly when the call threw or the provider said so, with that reason. |
| AnchorService.BadTokenIsRefused | services/anchoring/src/anchor-service.ts:95-118 | A token that is no good is refused for the first of its form or type, its hash and its check. |
| AnchorCoordinator.InMemoryAnchorRecordStore.PutIfAbsent | services/anchoring/src/retry-cadence.ts:117-122 | First write wins, the stored record is returned and no other record changes. |
| AnchorCoordinator.OneRunPerIdentity | services/anchoring/src/retry-cadence.ts:189-204 | Two unsettled runs of one anchor identity are the same run, whatever providers the calls bring. |
| AnchorCoordinator.EveryRequestGetsARun | services/anchoring/src/retry-cadence.ts:189-222 | A request joins the run of its identity that is in flight, or else starts one, which calls the provider at once unless a record is stored. |
| AnchorCoordinator.AnchorsOnceAndNeverFabricates | services/anchoring/src/retry-cadence.ts:189-249 | Over every interleaving of calls with any providers: one run per identity, at most maxAttempts calls in it, no provider call after the identity's record is stored, and every stored record carries a token verified for its head by the provider of the run that wrote it. |
| AnchorCoordinator.AnswerForCaller | services/anchoring/src/retry-cadence.ts:189-248 | An anchored answer is the stored record of the caller's own head; unless it was there at the start, its token has the caller's provider type and was verified by the provider of the run that wrote it. |
| AnchorCoordinator.AnswersAreVouchedIff | services/anchoring/src/retry-cadence.ts:189-248 | Over all runs on an empty store whose calls bring given providers: every caller's own provider vouches for its anchored answer if and only if any two of the providers of one type accept each other's genuine tokens. |
| AnchorCoordinator.JoinedCallerMayGetAnother | services/anchoring/src/retry-cadence.ts:193-204 | Two calls with different providers of one type: the second joins the first and is answered with a record its own provider refuses. |
| AnchorCoordinator.RecordsNeverChange | services/anchoring/src/retry-cadence.ts:110-249 | A record once stored is the same in every continuation. |
| AnchorCoordinator.TokenIsStored | services/anchoring/src/retry-cadence.ts:206-243 | A genuine token is stored as this run's own record, never found to be a duplicate or a collision. |
| AnchorCoordinator.StoredIsAnswered | services/anchoring/src/retry-cadence.ts:189-222 | A head whose record is stored is answered from the store without a provider call, as anchored exactly when the record is bound to this head and as a collision otherwise. |
| AnchorCoordinator.RunsFollowTheirReplies | services/anchoring/src/retry-cadence.ts:206-243 | In every interleaving a run calls its provider again after each pending reply until it has called maxAttempts times, and never after another: it ends as pending exactly with the reason of a pending reply to its last permitted call, and as refused with the reason of its only failure. |
| KeyRegistry.Construct | packages/signing/src/key-registry.ts:141-155 | The constructor accepts exactly valid records with distinct ids and an active key that is present and not revoked. |
| KeyRegistry.WellFormedIff | packages/signing/src/key-registry.ts:109-155 | A registry is well formed exactly when every record has an id, a known algorithm, a key and a readable creation not after its revocation, ids differ, and the active one is there and not revoked. |
| KeyRegistry.RotationSucceeds | packages/signing/src/key-registry.ts:230-236 | Rotation succeeds if and only if two people agree and the key is valid, new and unrevoked. |
| KeyRegistry.RotatedInIsActive | packages/signing/src/key-registry.ts:230-236 | The key rotated in is the active one, behind all the others, which are as they were. |
| KeyRegistry.RevocationSucceeds | packages/signing/src/key-registry.ts:243-253 | Revocation succeeds if and only if two people agree, the key is known, not active, not yet revoked, and the instant is real and not before its creation. |
| KeyRegistry.RevocationIsRecorded | packages/signing/src/key-registry.ts:243-253 | A revocation writes its instant into this key and changes nothing else. |
| KeyRegistry.ValidFromCreationToRevocation | packages/signing/src/key-registry.ts:185-205 | A registered key is valid for its algorithm from its creation up to, and not at, its revocation. |
| KeyRegistry.HistoryIsMonotone | packages/signing/src/key-registry.ts:225-253 | In every run the active key stays present and unrevoked, no key is dropped, altered or revoked twice. |
| KeyRegistry.VerdictsAreStable | packages/signing/src/key-registry.ts:185-205 | After any run a known key is valid at an instant exactly when it was before and the instant is not at or after its one revocation. |
| KeyRegistry.TrustFileResolves | packages/signing/src/trust-file.ts:90-102 | The sorted trust file resolves an id to the projection of its record, whatever the sort order, and to nothing else. |
| KeyRegistry.RegistryAgreesWithTrustFile | packages/verifier/src/verify-anchor.ts:100-119 | Registry and verifier window agree on a key and instant if and only if the instant parses, or neither knows the key with that algorithm. |
| KeyRegistry.LookupTakesTheFirst | packages/verifier/src/verify-anchor.ts:100-104 | Of several trusted keys with one id the first counts. |
| AnchorPayloads.SignableIff | packages/evidence/src/anchor-payload.ts:49-136 | Signing message and payload hash exist exactly when all three names are there, both hashes are hashes, the numbers are safe integers from 0 and from 1, and the instant is real. |
| HashedTexts.PayloadTextSays | packages/evidence/src/anchor-payload.ts:109-136 | What is signed is the domain tag and a text, and what is anchored the hash of that text, which, read back, says every field of the payload under its name. |
| AnchorPayloads.PayloadIsBound | packages/evidence/src/anchor-payload.ts:109-136 | Two payloads have the same signing message, or the same hash, if and only if they are equal in every written field. |
| VerifyAnchor.VerifyHsmSignature | packages/verifier/src/verify-anchor.ts:89-129 | Passes exactly when the anchored head is the recomputed head and a trusted ed25519 key signed exactly the message of this payload inside its window; throws exactly when the segment has no hash. |
| VerifyAnchor.TrustedIff | packages/verifier/src/verify-anchor.ts:100-129 | A key is trusted exactly when the first trusted key with the id signed under is an ed25519 key, the payload can be signed, its instant lies in the key's window, and the signature is the one made under the key over exactly this payload's message. |
| VerifyAnchor.VerifyAnchorForSegment | packages/verifier/src/verify-anchor.ts:165-182 | Fails both checks without a record that meets the schema; otherwise answers the signature and the token, and throws exactly when the segment has no hash or the payload cannot be hashed. |
| VerifyAnchor.LookupIsTheFirst | packages/verifier/src/verify-anchor.ts:132-163 | Of several certificates published under one reference the first counts. |
| VerifyAnchor.SchemaLetsThroughIff | packages/verifier/src/verify-anchor.ts:165-182 | Of the heads that meet the schema exactly those with an empty segment id, an unsafe number or an instant that is not real make the check throw. |
| VerifyAnchor.NamelessHeadThrows | packages/verifier/src/verify-anchor.ts:165-182 | A head with an empty segment id and otherwise good fields meets the schema and makes the check throw. |
| VerifyAnchor.PassingMeansRegistryValid | packages/verifier/src/verify-anchor.ts:89-129 | Under a projected trust file a passing signature is valid by the registry and made under the registered key. |
| VerifyAnchor.PassingSurvivesRotation | packages/signing/src/key-registry.ts:225-253 | After any further rotations and revocations it still passes exactly unless its key was revoked at or before the signing instant. |
| VerifyAnchor.AnchoredHeadVerifies | packages/verifier/src/verify-anchor.ts:89-163 | Completeness: the anchor made for a sealed head is bound to it, its signature passes exactly when the key's window holds the instant, and its log token exactly when the log's time is a real instant. |
| VerifyAnchor.AnchoredHeadBindsHistory | packages/verifier/src/verify-anchor.ts:89-98 | Two accepted chains whose last segments carry trusted anchors with the same signature agree in every hashed particular. |
| VerifyAnchor.LoggedLeafBindsHistory | packages/verifier/src/verify-anchor.ts:131-163 | When the log signs heads of prefixes of its leaves only and no signature is forged, two accepted chains whose anchors hold and name the same leaf agree in every hashed particular. |
| Normalization.SnapshotStandsAlone | services/normalization/src/accumulator.ts:45-77 | A snapshot read that has a synthetic id is completed at once, alone if and only if that id is not that of the open group. |
| NormalizationRuns.TransactionIsOneGroup | services/normalization/src/accumulator.ts:45-77 | Changes of one real transaction that arrive one after the other share one group, all of them in order, with database and header of the first; whatever was open before is finished. |
| NormalizationRuns.OpenIsFinishedIff | services/normalization/src/accumulator.ts:45-86 | The open group is finished as it is by a flush, and by a change of any other transaction, and by nothing else. |
| NormalizationRuns.SnapshotIdsTellApart | packages/canonical/src/snapshot.ts:44-75 | Two snapshot reads get one synthetic id exactly when they are reads of one row and their short epoch ids agree. |
| Normalization.EveryRunHolds | services/normalization/src/normalizer.ts:47-131 | In every run each mapped change lies in exactly one group in order of arrival, unless its synthetic id cannot be computed and the call throws; emitted, duplicates and dead letters add up to unmapped records and finished groups, emitted ids differ, and each database's envelopes form one unbroken chain from genesis. |
| NormalizationRuns.EmittedAreTheFirstBuilds | services/normalization/src/normalizer.ts:47-131 | In every run the emitted envelopes are exactly the first successful builds per id, each chained to the last one emitted for its database, in the order their groups were finished; a later build under an emitted id is a duplicate if its event hash is the same, and dead-lettered otherwise, as is every failed build. |
| NormalizationRuns.BuildsIff | services/normalization/src/normalizer.ts:93-110 | A build succeeds exactly with the envelope that holds the core, the hash of its text, the given predecessor and the row hash over both, when it is valid. |
| Normalization.NothingIsLostIff | services/normalization/src/accumulator.ts:29-77 | No call of a run throws exactly when every mapped snapshot read has an epoch and a row that can be serialized; the mapped changes are always those in groups and those thrown. |
| Normalization.UnsafeKeyIsLost | services/normalization/src/normalizer.ts:47-63 | A snapshot read with a good epoch and the primary key {id: 2^53} maps, throws when it is grouped, and leaves the run as it was, in no group and in no count. |
| Normalizer.TransactionAccumulator.Add | services/normalization/src/accumulator.ts:45-77 | The open group and completed groups after an event are as specified; without a synthetic id it throws and changes nothing. |
| Normalizer.CceStreamGuard.Check | services/normalization/src/dedup.ts:24-38 | An unseen id is emitted and remembered, a seen one is a duplicate or an integrity violation by its hash. |
| Normalizer.Normalizer.Finalize | services/normalization/src/normalizer.ts:84-131 | An envelope under an id not emitted before is emitted and moves the row chain of its database; one emitted before with the same event hash only counts as a duplicate; one whose id was emitted with another hash, and a group that does not build, only count as dead-lettered. |
| Normalizer.Normalizer.Process | services/normalization/src/normalizer.ts:47-63 | A record that does not map is dead-lettered; one that cannot be grouped throws; otherwise the groups it completes are finalized in order. |

## Left out

- VerifyTransparencyLogToken: claims nothing for a tree size above 2^31, where the source's shifts wrap; the same holds for RootFromInclusion and DevTransparencyLogProvider.VerifyToken.
- DevTransparencyLogProvider.Anchor: is stated below 2^30 leaves, because above that the source's split-point loop does not end (SplitLoopEndsIff).
- LargestPowerOfTwoLessThan: is stated up to 2^30, the sizes at which the loop ends by SplitLoopEndsIff.
- SerializeCanonical: is read back without white space and fractions, which the serializer never writes; the source has no reader for its canonical text.
- CanonicalWriter.Write: does not say which of several errors is thrown first.
- EveryRunHolds: calls of the normalizer follow one another, and its sink and dead-letter queue take what they are given; interleaved calls and a rejecting sink are not modelled.
- SnapshotIdsTellApart: short epoch ids are cut hashes and are taken as given; two epochs may share one.
- PassingSurvivesRotation: speaks of trust files that can be projected before and after.
- RunChecks: signature, anchor and projection checks of the report are separate; report building and the joined detail texts are not modelled.
- VerifyAnchorToken: the check of a timestamp token is a parameter, and a log token is judged up to a tree size of 2^31; the same holds for VerifyAnchorForSegment.
- Strings are taken as well formed and already NFC-normalized, and lower-casing as ASCII lower-casing; the Unicode tables are not modelled.
- Strings the code reads as identifiers and keys hold no hash tokens; a token in such a string reads as missing.
- JavaScript numbers beyond 2^53 in GTIDs and offset keys are modelled as unbounded integers.
- Records are structurally valid where the source would raise a TypeError on a missing nested object.
- SHA-256, UUIDv5, Ed25519, base64, JSON parsing, key parsing and Date.parse are abstract: free constructors, parameters, or an optional millisecond value beside an instant's text.
- Schema validation of manifests and envelopes is a parameter, the same on both sides.
- The sort behind Array.prototype.sort and localeCompare is an insertion sort over the given comparator; results are shown not to depend on the algorithm, and a sort that orders by comparisons alone has to compare neighbours, so it throws on the same buffers.
- The service's statistics counters and the content of anchor records are not modelled; a seal's start is a step of its own, which allows more interleavings than the source has.
- Retry delays, anchoring cadence and the un-anchored window monitor are one-branch arithmetic.
- The inside of RFC 3161 tokens, the dual-custodian provider and the export keys are not modelled; they would repeat the log and signing-key checks.
- Building and checking snapshot epoch manifests, coverage attestation, masking, diffing and attribution are not modelled: the core of an envelope is an opaque hashed value.
- The stream validator's report of non-monotonic ingest times has no effect on what is emitted and is not modelled.
- Redis, PostgreSQL, MinIO, files, command lines and entry points are plumbing.
