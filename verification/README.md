# Models and proofs for the FieldTrue / Inbar evidence pipeline

The repository keeps a hash-chained research ledger in Git, verifies its history, packages recovery
manifests and validation receipts, admits physical incident corpora, retrieves public metadata under a
lease, simulates two fault laboratories in integer arithmetic, and selects diagnostic tests by expected
information gain. This project models those parts in Dafny and proves what they are for.

How the model reads the sources:

- Bytes are `char`s below 256 in a `string`; a Python `str` inside JSON is a sequence of code points.
- SHA-256 and Git object IDs are arbitrary functions. Where a result needs them to be injective, its
  alternative names the two texts in hand that have one digest: a record body of each ledger, HEAD's and its
  parent's trees, two retrieved bodies, two configurations used.
- Probabilities and Decimals are exact reals; sums that the source accepts within a tolerance are exact.
  `log2` and `exp` are arbitrary functions with the usual laws (`InformationGain.IsLog2`,
  `ActivePosterior.IsExp`).
- Python's `//` by a positive number is Dafny's `/`.
- Git, files, clocks, the network, URI splitting and signatures are inputs: repositories are functions
  from commits to blobs and trees, transports are recorded answers, hash draws are arbitrary numbers. The
  commit graph is acyclic and `rev-list base..head` lists the commits reachable from head and not from base
  with their parents (`History.Listed`).
- Where the source updates state, the model does: the ledger caches, the forward cache, the recovery walk
  and the census session are classes; loops are loops. A method is proved against a specification function
  or predicate, and the lemmas prove what the source promises about that specification.
- A member that only computes is represented below by the lemma or method whose contract says what the
  computation means.

Modules: `JsonText`, `CanonicalJson`, `EmittedText`, `Normalization` (canonical serialization); `Decimal`,
`LineText`, `Ledger`, `AnchorCaches`, `History` (ledger and history verification); `BlobBatch`,
`SourceContents` (batch framing); `InformationGain`, `Observations`, `TestSelection`, `Diagnosis` (planner
and updates); `Telemetry`, `GradedLab`, `ReferenceLab`, `FullSeverity`, `Separability`, `Blindness`
(laboratories); `Hypotheses`, `ForwardCaches`, `ActivePosterior`, `CommittedDiagnosis`, `ActionSelection`
(active selection); `TokenScan`, `Admission` (acquisition); `RecoveryWalk`, `Finalization` (handoff);
`CensusSessions` (census); `Prelude`, `Sorting`, `RealSums` (shared lemmas). The laws that say what these
specifications mean in raw fields, literal constants and elementary relations are in `OrderLaws`, `TextLaws`,
`AcceptedLedger`, `TreeLaws`, `PlantLaws`, `PosteriorLaws` and `SelectionLaws`.

Places where the code and its prose disagree; the model follows the code:

- src/fieldtrue/graded_laboratory.py:390-393 calls flooring the expected disturbance conservative. The floor
  makes the denominator smaller. It never overstates a separation if and only if the amplitudes along the
  nominal trajectory add up to at most one: `Separability.FlooringConservativeExactly`, with what follows for
  a pair in `Separability.ResolvableAgainstMean`, for the whole index in `Separability.IndexAgainstExact`, and
  a failing setting in `Separability.FlooringFlatters` and `Separability.FlooredIndexFlatters`.
- src/fieldtrue/active_selection.py:39-40 and src/fieldtrue/graded_laboratory.py:170-172 say that only a
  command above the threshold separates a deadband from a drive loss. Below it they agree if and only if the
  weakened drive has no effect in any step: `Blindness.SmallProbesAgreeExactly`, and
  `Blindness.SmallProbeSeparates` for drive 50 and a command of 40 under a threshold of 60.
- src/fieldtrue/graded_laboratory.py:223 says full severity matches `drive // 10`. It does exactly when ten
  divides the drive: `FullSeverity.ParametersAgreeExactly`, `FullSeverity.DriveLossDiffers`.
- src/fieldtrue/active_selection.py:480-482 says selection is independent of catalog ordering. For every
  catalog, repeated IDs included, that holds if and only if selection is refused before scoring or every entry
  that ties on rounded score and hash at the top, or shares a top entry's ID, has that ID and hash and is
  eligible: `ActionSelection.OrderIndependenceExactly`. Both ways of failing are shown:
  `ActionSelection.SameVectorOrderMatters`, `ActionSelection.RepeatedIdOrderMatters`.
- Canonical text is injective on strings only without a high surrogate code point directly before a low one:
  `JsonText.StringRoundTripExactly`, `JsonText.SplitPairCollides`; for whole values
  `CanonicalJson.LoadsDumpsExactly` and, with such pairs present, `EmittedText.DumpsEqualExactly`.
- The pruned walk and the flat path filter of the recovery inventory agree exactly when nothing selected lies
  under a directory named like one of the three special paths: `RecoveryWalk.WalkAgreesExactly`,
  `RecoveryWalk.MisplacedDiffers`.
- The census session counts a response's bytes before it builds the record, so a response whose record is
  invalid is counted and stored but not listed. The counter is the sum of the recorded sizes if and only if
  every counted response with an ill-typed request or final URI was empty: `CensusSessions.BytesExactly`,
  `CensusSessions.WellTypedAccounting`, and a run where it is larger in `CensusSessions.IllTypedIsCounted`.
- src/fieldtrue/census_execution.py:326-328 says refusals happen before network contact, the byte ceiling
  included. Window, stop rule, scheme and frame are decided before contact; the ceiling refuses only for what
  was received: `CensusSessions.ContactExactly`, `CensusSessions.CeilingNeedsResponse`, with a request in
  `CensusSessions.CeilingRefusesReceived`. After redirects the final host is not held against the frame:
  `CensusSessions.FinalHostUnchecked`, with a request in `CensusSessions.RedirectedOutIsRecorded`.

## Model

| member | source | states |
|---|---|---|
| JsonText.StringRoundTripExactly | src/fieldtrue/canonical.py:64-74 | a written string literal reads back as the same string if and only if no high surrogate code point stands directly before a low one |
| JsonText.SplitPairCollides | src/fieldtrue/canonical.py:64-74 | every string with such a split pair has the same literal as a different string without one |
| JsonText.SplitPairExample | src/fieldtrue/canonical.py:64-74 | a concrete pair of different strings with one literal |
| CanonicalJson.ReadEmitted | src/fieldtrue/canonical.py:64-74 | any well-formed value written before a delimiter is read back with the rest of the text untouched |
| CanonicalJson.LoadsDumpsExactly | src/fieldtrue/canonical.py:64-74 | reading canonical text gives the value back with the members of every object in key order if and only if the value has distinct keys, proper number tokens and no split pair |
| CanonicalJson.DumpsInjective | src/fieldtrue/canonical.py:64-74 | two well-formed values have equal canonical text if and only if they differ at most in member order |
| EmittedText.DumpsEqualExactly | src/fieldtrue/canonical.py:64-74 | for all values with proper number tokens, split pairs included, canonical texts are equal if and only if the key-sorted values are, string by string in UTF-16 code units |
| OrderLaws.LexLeqExactly | src/fieldtrue/canonical.py:68-74 | the order used for keys puts a before b if and only if a is a prefix of b or smaller at the first place where they differ |
| OrderLaws.TextLeqExactly | src/fieldtrue/planning.py:189-202 | text is ordered by code point in the same sense, which is how IDs, hashes, paths and tokens are compared |
| OrderLaws.CanonSortsKeys | src/fieldtrue/canonical.py:68-74 | in what is written the keys of every object ascend in that order, at every depth |
| OrderLaws.DumpsIsPrintable | src/fieldtrue/canonical.py:68-74 | canonical text holds only printable ASCII, whatever the strings in the value hold |
| OrderLaws.EscapesSpelled | src/fieldtrue/canonical.py:68-74 | the seven two-character escapes, four lower-case hexadecimal digits for other controls and non-ASCII units, every other printable unit as itself |
| OrderLaws.TwoMembersWritten | src/fieldtrue/canonical.py:68-74 | an object given with `b` before `a` is written with `a` first, without spaces |
| OrderLaws.DecimalExactly | src/fieldtrue/handoff.py:1718-1720 | a digit string is the decimal notation of its value if and only if it has no leading zero or is one digit |
| CanonicalJson.LoadsWF | scripts/ci/verify_history.py:500-513 | whatever the duplicate-refusing reader accepts has distinct keys, proper numbers and no split pair |
| Normalization.NormalizeIdempotent | src/fieldtrue/canonical.py:24-61 | normalizing a normalized value changes neither the value nor its text |
| Normalization.SameCanonicalText | src/fieldtrue/canonical.py:24-74 | values equal up to mapping insertion order and set iteration order at every depth are refused together or have one text |
| TextLaws.RefusedExactly | src/fieldtrue/canonical.py:24-61 | normalization is refused if and only if at some depth stands a naive time, a non-finite number, raw bytes, a foreign type or a key that is not text |
| TextLaws.ScalarsSpelled | src/fieldtrue/canonical.py:24-61 | times, dates, paths and decimals have the text of their string; members and models that of what they hold |
| TextLaws.ContainersSpelled | src/fieldtrue/canonical.py:49-60 | a mapping is written with its key and value, a sequence with its item, empty ones as bare brackets |
| TextLaws.SetsSpelled | src/fieldtrue/canonical.py:56-58 | a set becomes the list of its elements, the same ones with their multiplicity, ascending by canonical text |
| Ledger.PayloadIsClean | scripts/ci/verify_history.py:372-388 | the worklist search accepts exactly the payloads without a sensitive key at any depth |
| Ledger.RunPrefix | scripts/ci/verify_history.py:478-625 | every record prefix of an accepted ledger is accepted |
| Ledger.SameHashSameLine | scripts/ci/verify_history.py:579-625 | two accepted records with one event hash are the same line at the same sequence after the same predecessor, or their two bodies differ under one hash |
| Ledger.FinalHashDeterminesLines | scripts/ci/verify_history.py:478-625 | two accepted record lists with one final hash are equal, or a record body of each differ under one hash, even across repositories |
| Ledger.FinalHashDeterminesLedger | scripts/ci/verify_history.py:478-625 | two accepted non-empty ledgers with one final event hash are byte-identical, or a record body of each differ under one hash |
| Ledger.IdsAreEarlier | scripts/ci/verify_history.py:530-532 | the verifier's ID set is exactly the event IDs of the records read, and those are pairwise different |
| Ledger.ReferencesPointBack | scripts/ci/verify_history.py:604-617 | every link and every correction of an accepted record names the event of a strictly earlier record, and exactly corrections correct something |
| Ledger.CorrectedRecord | scripts/ci/verify_history.py:611-617 | a correction corrects exactly one record of the ledger, an earlier one |
| Ledger.CorrectionsEnd | scripts/ci/verify_history.py:611-617 | from every record a correction chain leads to a record that corrects nothing |
| Ledger.ChainsDescend | scripts/ci/verify_history.py:611-617 | every correction chain goes strictly back in the ledger |
| AcceptedLedger.IdentityNeverResumes | scripts/ci/verify_history.py:518-528 | every record of an accepted ledger has one of the two identities, and after one of mission `inbar` every later record is of mission `inbar` |
| AcceptedLedger.RecordSpelled | scripts/ci/verify_history.py:500-513 | every accepted line is the canonical text of one object that has exactly the twenty-four fields, keys ascending there and in every object inside |
| AcceptedLedger.IdentifierSpelled | scripts/ci/verify_history.py:349-352 | identifiers are exactly one to 128 ASCII letters, digits and the signs `.`, `_`, `:`, `-`, beginning with a letter or a digit |
| AcceptedLedger.ChainSpelled | scripts/ci/verify_history.py:515-625 | record i has sequence i, names the event hash of record i-1 or sixty-four zeros, and its own hash is that of the record without it |
| AcceptedLedger.AnchorsSpelled | scripts/ci/verify_history.py:399-475 | every record is anchored at a full object ID that resolves to an ancestor; external evidence is safe HTTPS with a hash and no commit, repository evidence names a bounded blob at an ancestor whose digest is any stated hash; sealed evidence is not public |
| AcceptedLedger.PayloadSpelled | scripts/ci/verify_history.py:372-388 | the event type is known and its payload has that type's members, manual work has a recurrence key, and no payload key at any depth folds to a text with one of the six words unless it ends as a reference |
| AcceptedLedger.CleanExactly | scripts/ci/verify_history.py:372-388 | a value is clean if and only if no key that occurs in it at any depth is sensitive |
| AnchorCaches.AnchorCache.VerifyAnchorCommit | scripts/ci/verify_history.py:243-274 | through any coherent cache, acceptance and refusal agree with the cold lookup; the cache stays coherent and grows by that anchor only |
| AnchorCaches.AnchorCache.RepositoryBlobDigest | scripts/ci/verify_history.py:277-318 | the digest returned is the blob's own, the byte total stays the sum of the cached blob sizes within its bound |
| AnchorCaches.AnchorCache.VerifyEvidence | scripts/ci/verify_history.py:399-475 | evidence is accepted through the cache only if, and refused only if not, every item passes the cold rules |
| AnchorCaches.AnchorCache.VerifyRecord | scripts/ci/verify_history.py:497-625 | one record's verdict through the cache is the cold verdict, unless a review bound was reached |
| AnchorCaches.AnchorCache.VerifyMemoryBytes | scripts/ci/verify_history.py:478-625 | a ledger's verdict through a warm cache is the cold verdict, unless a review bound was reached |
| History.MemoryCache.MemoryBlob | scripts/ci/verify_history.py:628-653 | a cached ledger is the commit's own blob and was accepted cold |
| History.VerifyHistory | scripts/ci/verify_history.py:955-997 | the range is accepted only when, and refused only when not, every row and edge passes cold; the counts returned are those of the rows and edges |
| History.PrefixLiftsToRecords | scripts/ci/verify_history.py:484-499 | a byte prefix that is itself LF-framed is a prefix of the record list |
| History.PathExtends | scripts/ci/verify_history.py:976-997 | along every parent path inside an accepted range the ancestor's ledger is a prefix of the descendant's in bytes and records |
| History.TouchedExtendsToHead | scripts/ci/verify_history.py:955-997 | base's ledger, every listed commit's and every parent's is a prefix of head's |
| History.TouchedComparable | scripts/ci/verify_history.py:955-997 | the ledgers of any two such commits are prefix-comparable, even across merges |
| TreeLaws.RangeSpelled | scripts/ci/verify_history.py:955-997 | base and head resolve, base is an ancestor, there are 1 to 512 commits, each passes every policy with every parent, and each touched ledger is a blob of at most 16 MiB accepted cold |
| TextLaws.FramedSpelled | scripts/ci/verify_history.py:484-487 | LF framing holds for the empty text, fails for text with a CR anywhere, and for non-empty text without a final LF |
| BlobBatch.HeaderExactly | src/fieldtrue/handoff.py:1706-1723 | a batch header is accepted if and only if it is the ID, `blob` and the canonical decimal of a size within the limit |
| BlobBatch.FrameLength | src/fieldtrue/handoff.py:1777-1788 | the precomputed output bound is exactly the length of the framing |
| BlobBatch.BatchExactly | src/fieldtrue/handoff.py:1735-1811 | the two-phase parser yields these blobs if and only if both outputs are their in-order framing, they hash to the requested IDs and all limits hold |
| BlobBatch.BlobBindings | src/fieldtrue/handoff.py:1735-1811 | the loops succeed exactly on such framings and bind every ID to its blob's size and digest |
| TextLaws.SameIdSameBlob | src/fieldtrue/handoff.py:1726-1732 | blobs with one object ID are equal, or `blob`, length, NUL and content are two different texts with one hash |
| TextLaws.SizeLimit | src/fieldtrue/handoff.py:1718-1723 | a canonical header is accepted if and only if it announces at most 16777216 bytes |
| TextLaws.RequestSpelled | src/fieldtrue/handoff.py:1740-1751 | a request is accepted if and only if it is non-empty, without repetition, of full object IDs, and takes at most 4 MiB with its line ends |
| TextLaws.BatchLimits | src/fieldtrue/handoff.py:1735-1811 | Git's own output is read back if and only if the headers take at most 4 MiB, each blob at most 16 MiB, all together at most 64 MiB, and every blob has its ID |
| TextLaws.SizesSpelled | src/fieldtrue/handoff.py:1761-1775 | the size phase of two blobs, the second empty, letter by letter |
| TextLaws.FramesSpelled | src/fieldtrue/handoff.py:1789-1810 | the content phase of the same two blobs, letter by letter |
| SourceContents.SourcesSound | src/fieldtrue/acquisition.py:3953-3980 | whatever the acquisition parser accepts is a sequence of frames of the announced sizes with nothing after the last |
| SourceContents.SourcesExactly | src/fieldtrue/acquisition.py:3907-3980 | for well-formed object IDs the parser yields these blobs if and only if the size lines announce their lengths within both limits and the output is their frames, with any separator-free size texts that read as the lengths |
| SourceContents.SourcesComplete | src/fieldtrue/acquisition.py:3907-3980 | from Git's own framing of bounded blobs the parser recovers every blob |
| SourceContents.BindRecovers | src/fieldtrue/acquisition.py:3954-3980 | when equal IDs carry equal blobs the result maps every requested ID to its blob and nothing else |
| SourceContents.GitSourceContents | src/fieldtrue/acquisition.py:3926-3980 | the two loops accept exactly what the parser specification accepts and fill the dictionary in request order |
| TextLaws.BreaksSpelled | src/fieldtrue/acquisition.py:3926-3928 | LF, CR and CRLF each end one line of the size output, and a last line needs no end |
| TextLaws.SourceLimits | src/fieldtrue/acquisition.py:3926-3980 | Git's own output is read back if and only if each blob has at most 16 MiB and all together at most 32 MiB |
| TextLaws.LinesUnbroken | src/fieldtrue/acquisition.py:3926-3928 | no split line holds a line break |
| InformationGain.GainIsMutualInformation | src/fieldtrue/planning.py:52-81 | prior entropy minus expected posterior entropy is the mutual information of hypothesis and outcome |
| InformationGain.GainSign | src/fieldtrue/planning.py:52-81 | that quantity is never negative, and zero exactly when all hypotheses with positive prior share one outcome distribution |
| InformationGain.GainAtMostEntropy | src/fieldtrue/planning.py:52-81 | no test removes more than the prior entropy |
| PosteriorLaws.FairCoinIsOneBit | src/fieldtrue/planning.py:47-49 | two equally weighted hypotheses have an entropy of one bit |
| InformationGain.ExpectedInformationGain | src/fieldtrue/planning.py:36-81 | the loop returns the unclamped difference: in exact arithmetic the clamp at zero is never active; it refuses exactly unnormalizable priors and mismatched hypotheses |
| InformationGain.PosteriorAfterIsConditional | src/fieldtrue/planning.py:84-99 | observing a modeled outcome gives the conditional distribution, or is refused exactly when the outcome was impossible |
| Observations.TwiceIsBoth | src/fieldtrue/planning.py:84-99 | observing outcomes of two tests in turn gives the prior conditioned on both, refused exactly when they cannot occur together |
| Observations.ObservationsCommute | src/fieldtrue/planning.py:84-99 | the order of two observations matters neither for the refusal nor for the posterior |
| InformationGain.PosteriorsAverageToPrior | src/fieldtrue/planning.py:63-99 | posteriors weighted by outcome probability return the prior |
| TestSelection.BestUnique | src/fieldtrue/planning.py:102-216 | with distinct test IDs at most one candidate is best in utility, cost, risk and ID, whatever the input order |
| TestSelection.SelectDiscriminatingTest | src/fieldtrue/planning.py:102-216 | returns an eligible candidate no other eligible one precedes; each refusal holds exactly under its condition, the non-discriminating one exactly when eligible tests exist and all gains are zero |
| SelectionLaws.EligibleExactly | src/fieldtrue/planning.py:102-153 | a test is eligible if and only if none of seven violations applies: not approved, other authority, not allowed, too risky, missing precondition, other receipt, unverified on the testbed |
| SelectionLaws.BestSpelled | src/fieldtrue/planning.py:171-203 | the best test violates nothing and, against each candidate that violates nothing, has more information per cost, or as much and is cheaper, then less risky, then earlier by ID; the cost is the larger of the floor and cost, weighted time and weighted risk together |
| Diagnosis.UpdateKeepsContract | src/fieldtrue/diagnosis.py:11-49 | an update keeps IDs, order, unit mass, the single unknown and every zero prior, and is refused as impossible exactly when every hypothesis has zero weight |
| Diagnosis.SuccessiveIsProduct | src/fieldtrue/diagnosis.py:11-49 | two successive updates succeed exactly when one update by the product likelihood does, and give its priors |
| Diagnosis.UpdatesCommute | src/fieldtrue/diagnosis.py:11-49 | the order of two observations matters neither for success nor for the posterior |
| PosteriorLaws.BayesOdds | src/fieldtrue/diagnosis.py:11-49 | posterior odds of any two hypotheses are prior odds times the likelihood ratio; an evidence ID is appended exactly where the likelihood is not zero |
| GradedLab.GradedRun | src/fieldtrue/graded_laboratory.py:273-302 | the plant loop computes the lagged, disturbed trajectory, refused exactly for a severity outside 0..100 |
| GradedLab.GradedForwardTelemetry | src/fieldtrue/graded_laboratory.py:305-329 | the forward loop computes the undisturbed trajectory, refused exactly for a severity outside 0..100 |
| GradedLab.SeverityMonotone | src/fieldtrue/graded_laboratory.py:208-246 | with non-negative parameters and commands every predicted sample moves monotonically with severity, so the L1 distance from nominal never decreases and is zero at severity zero, for every horizon |
| GradedLab.PlantNearForward | src/fieldtrue/graded_laboratory.py:273-329 | the plant's state stays within an explicit recurrence of nuisance, gain, drive and lag of the forward state, at every step and for every seed |
| GradedLab.TrueResidualBounded | src/fieldtrue/graded_laboratory.py:249-329 | the true hypothesis's residual is within state error plus noise bound at every sample and in total |
| GradedLab.TruthHasLeastResidual | src/fieldtrue/graded_laboratory.py:273-329 | a hypothesis predicting a signature more than twice the summed bound away has a strictly larger residual, for every seed |
| GradedLab.ExactPlantMatchesForward | src/fieldtrue/graded_laboratory.py:249-302 | without lag, noise and nuisance the run is exactly the forward model, for every seed |
| PlantLaws.CentredReachesEachOnce | src/fieldtrue/graded_laboratory.py:249-270 | of the draws 0..2a exactly one gives each value of [-a, a], and draws repeat with period 2a+1 |
| PlantLaws.AmplitudeSpelled | src/fieldtrue/graded_laboratory.py:256 | the amplitude is the floor noise plus the millionths of the magnitude rounded down, the same for both signs |
| PlantLaws.SampleRange | src/fieldtrue/graded_laboratory.py:292-301 | over all draws a sample differs from the settled state by exactly the values within the amplitude at that state |
| PlantLaws.OffsetRange | src/fieldtrue/graded_laboratory.py:264-270 | over all draws the initial offset takes exactly the values within the nuisance amplitude |
| PlantLaws.FullLagDelays | src/fieldtrue/graded_laboratory.py:292-300 | at full lag the plant is the forward model on the commands one step late |
| PlantLaws.NoLagIsForward | src/fieldtrue/graded_laboratory.py:292-300 | without lag the plant's states are the forward model's |
| PlantLaws.DeliveredEnds | src/fieldtrue/graded_laboratory.py:298 | the delivered command is the weighted mean of the last and the current one rounded down, the current one at lag 0 and the last one at full lag |
| PlantLaws.NextSpelled | src/fieldtrue/graded_laboratory.py:300 | a step adds the bias to the gain and the drive parts, each hundredth rounded down on its own |
| PlantLaws.TransformSpelled | src/fieldtrue/graded_laboratory.py:208-241 | at every severity each mechanism changes its own parameter by the stated share, rounded down, and no other |
| ReferenceLab.RunReference | src/fieldtrue/causal_laboratory.py:588-608 | the reference loop computes the recurrence and adds one bounded draw to each sample |
| ReferenceLab.ReferenceForwardTelemetry | src/fieldtrue/causal_laboratory.py:617-641 | the reference forward loop computes the same recurrence without draws |
| ReferenceLab.TrueResidualBounded | src/fieldtrue/causal_laboratory.py:588-641 | the true mechanism's residual is exactly the draw, at most 3 per sample |
| ReferenceLab.TruthHasLeastResidual | src/fieldtrue/causal_laboratory.py:588-641 | a mechanism more than six per sample away always has the strictly larger residual |
| ReferenceLab.SixPerSampleIsTight | src/fieldtrue/causal_laboratory.py:602-605 | at exactly six per sample draws can make the two residuals equal |
| PlantLaws.ReferenceDrawsReachEachOnce | src/fieldtrue/causal_laboratory.py:602-605 | of seven consecutive draws exactly one gives each value of [-3, 3] |
| FullSeverity.ParametersAgreeExactly | src/fieldtrue/graded_laboratory.py:222-236 | at severity 100 a shared mechanism has the reference laboratory's parameters if and only if it is not a drive loss or ten divides the drive |
| FullSeverity.TelemetryAgrees | src/fieldtrue/graded_laboratory.py:305-329 | under that condition both laboratories' forward models predict the same telemetry, for every horizon and action |
| FullSeverity.DriveLossDiffers | src/fieldtrue/graded_laboratory.py:222-226 | a drive of 51 gives different predictions |
| Separability.MeanFloorIsFloorOfMean | src/fieldtrue/graded_laboratory.py:403-406 | each disturbance term is the floor of the mean of the equally likely absolute draws |
| PlantLaws.DrawMagnitudes | src/fieldtrue/graded_laboratory.py:261 | the draws averaged are the magnitudes of the plant's own draws 0..2a |
| Separability.ExpectedDisturbanceL1 | src/fieldtrue/graded_laboratory.py:380-407 | the loop sums those floors along the nominal trajectory and is at least one |
| Separability.FloorCoversExactly | src/fieldtrue/graded_laboratory.py:390-407 | the floored denominator is at least the exact mean disturbance if and only if the nominal amplitudes add up to at most one |
| Separability.FlooringConservativeExactly | src/fieldtrue/graded_laboratory.py:390-407 | flooring never overstates the separation of any signature if and only if the nominal amplitudes add up to at most one |
| Separability.ResolvableAgainstMean | src/fieldtrue/graded_laboratory.py:390-407 | where they do, a resolvable score means a signature at least as large as the exact mean; elsewhere every such signature scores as resolvable |
| Separability.FlooringFlatters | src/fieldtrue/graded_laboratory.py:390-407 | a concrete setting where a signature below the exact mean disturbance scores 1000 |
| Separability.IndexAgainstExact | src/fieldtrue/graded_laboratory.py:390-457 | when every permitted action is nearly quiet the index never exceeds the one taken with exact means; when none is, it never falls below it |
| Separability.FlooredIndexFlatters | src/fieldtrue/graded_laboratory.py:390-457 | a catalog whose index is 1000 although no action separates its pair by that much against the exact mean |
| Separability.PairBestIsMax | src/fieldtrue/graded_laboratory.py:434-453 | a pair's value is the maximum over the permitted actions |
| Separability.SeparabilityIndexPermille | src/fieldtrue/graded_laboratory.py:410-457 | the nested loops return the minimum over all candidate pairs of the maximum over actions, with each refusal's exact condition |
| Separability.IndexUnique | src/fieldtrue/graded_laboratory.py:410-457 | the index does not depend on the order of candidates or of actions |
| Separability.MoreActions | src/fieldtrue/graded_laboratory.py:420-425 | adding actions never lowers the index |
| Separability.MoreCandidates | src/fieldtrue/graded_laboratory.py:430-457 | adding candidates never raises the index |
| Separability.RepeatedCandidate | src/fieldtrue/graded_laboratory.py:430-457 | a repeated candidate makes the index zero |
| Separability.MechanismSeparabilityPermille | src/fieldtrue/graded_laboratory.py:460-500 | the loop returns the minimum over competing candidates, with each refusal's exact condition |
| Separability.IndexIsLeastNearest | src/fieldtrue/graded_laboratory.py:410-500 | for distinct candidates and one action the catalog index is the minimum of the per-mechanism indices over the injected mechanism |
| Blindness.SameTelemetryExactly | src/fieldtrue/graded_laboratory.py:305-329 | mechanisms sharing gain and bias predict the same telemetry if and only if every command of the horizon drives them alike |
| Blindness.DeadbandInvisibleExactly | src/fieldtrue/graded_laboratory.py:237-246 | a deadband is invisible to a probe if and only if every command below its threshold would have been idle anyway |
| Blindness.LargeProbesAreBlind | src/fieldtrue/active_selection.py:15-17 | a probe at or above the threshold, or at rest, has separation exactly zero between deadband and nominal |
| Blindness.RestHidesActuators | src/fieldtrue/graded_laboratory.py:474-476 | at rest a drive loss and a deadband predict exactly the nominal telemetry |
| Blindness.RestZeroesIndex | src/fieldtrue/graded_laboratory.py:471-476 | with only no-op actions, an actuator fault beside the unknown makes the whole catalog's index zero |
| Blindness.ActuatorFaultsAgreeExactly | src/fieldtrue/active_selection.py:39-40 | a deadband and a drive loss predict the same telemetry if and only if commands below the threshold leave the weakened drive idle and the others lose nothing to weakening |
| Blindness.SmallProbesAgreeExactly | src/fieldtrue/graded_laboratory.py:168-173 | for a probe below the threshold or at rest they agree if and only if the weakened drive has no effect in any step |
| Blindness.SmallProbeSeparates | src/fieldtrue/graded_laboratory.py:168-173 | at drive 50 and full severity a command of 40 under a threshold of 60 separates them |
| Hypotheses.LabelInjective | src/fieldtrue/active_selection.py:125-127 | a label names one (mechanism, severity) pair, whatever characters the key holds |
| PosteriorLaws.LabelSpelled | src/fieldtrue/active_selection.py:125-127 | the label of mechanism `loss` at severity 65 is `loss:65` |
| ForwardCaches.ForwardCache.Telemetry | src/fieldtrue/active_selection.py:318-343 | after any sequence of calls the memoized result is the direct forward telemetry, or a different configuration used before has the same hash |
| ForwardCaches.ForwardCache.ResidualsFor | src/fieldtrue/active_selection.py:346-365 | the residual dictionary holds exactly the L1 residual of every hypothesis of the space, refused exactly on a length mismatch, or a different configuration used before has the same hash |
| PlantLaws.PredictionSpelled | src/fieldtrue/graded_laboratory.py:305-329 | a key of the catalog is predicted with its own mechanism at its own severity, any other key as nominal |
| PlantLaws.L1IsSum | src/fieldtrue/active_selection.py:346-365 | the residual is the sum of the pointwise distances |
| ActivePosterior.PosteriorIsUnshifted | src/fieldtrue/active_selection.py:303-315 | shifting by the minimum residual changes nothing: the result is the normalized unshifted exponential |
| ActivePosterior.ShiftInvariance | src/fieldtrue/active_selection.py:303-315 | adding one constant to every residual leaves the posterior as it is |
| ActivePosterior.LikelihoodOrder | src/fieldtrue/active_selection.py:303-315 | a smaller residual is a strictly larger likelihood, an equal one an equal likelihood, and none is zero |
| ActivePosterior.TruthIsMostLikely | src/fieldtrue/active_selection.py:346-365 | when every other hypothesis predicts a signature more than twice the error bound away, the truth is strictly the most likely, for every seed |
| ActivePosterior.UpdateIsBayes | src/fieldtrue/active_selection.py:535-558 | an update always succeeds and is prior times exponential, normalized |
| ActivePosterior.UpdateKeeps | src/fieldtrue/active_selection.py:535-558 | an update keeps the labels, unit mass and exactly the zero labels |
| ActivePosterior.FoldsAddResiduals | src/fieldtrue/active_selection.py:535-558 | folding two observations in turn is one update with the summed residuals |
| ActivePosterior.FoldsCommute | src/fieldtrue/active_selection.py:535-558 | the order of two observations does not matter |
| PosteriorLaws.ResidualOdds | src/fieldtrue/active_selection.py:261-315 | the odds of any two hypotheses are the exponential of a quarter of their residual difference |
| PosteriorLaws.UpdateOdds | src/fieldtrue/active_selection.py:535-558 | an update multiplies the prior odds of any two hypotheses by that exponential |
| CommittedDiagnosis.MarginalOverMechanism | src/fieldtrue/active_selection.py:561-577 | the loop returns the mass of exactly the mentioned mechanisms, refused exactly for an unknown label |
| CommittedDiagnosis.MarginalKeepsMass | src/fieldtrue/active_selection.py:561-577 | summing severities out keeps the total mass |
| CommittedDiagnosis.Committed | src/fieldtrue/active_selection.py:580-594 | abstains exactly when no mechanism reaches the floor, otherwise names the most probable one, alphabetically first among equals |
| PosteriorLaws.NamesExactly | src/fieldtrue/active_selection.py:570-576 | a label counts towards a mechanism if and only if some hypothesis of the space has that label and mechanism |
| ActionSelection.SelectAction | src/fieldtrue/active_selection.py:469-532 | the loop scores the whole catalog in order and selects as specified, with the source's order of refusals |
| ActionSelection.NeverSelectsRefused | src/fieldtrue/active_selection.py:457-532 | the selected ID and hash are those of a safe catalog entry with the highest (rounded score, hash), even when IDs repeat |
| ActionSelection.NearBest | src/fieldtrue/active_selection.py:469-532 | whatever is selected names a safe catalog entry whose exact score is within a millionth of every eligible action's |
| SelectionLaws.SelectedIsWorthMost | src/fieldtrue/active_selection.py:186-194 | whatever is selected names a safe entry whose gain per cost is, up to a millionth, at least that of every safe entry, by cross products, the cost being the larger of the floor and direct cost, weighted time and weighted risk together |
| SelectionLaws.RefusalsSpelled | src/fieldtrue/active_selection.py:484-526 | an empty catalog, fewer than two hypotheses, a safe entry without cost, and no safe entry are refused exactly in that order |
| SelectionLaws.TiesGoToTheLastHash | src/fieldtrue/active_selection.py:524-532 | the selected entry has the highest rounded score, and among those with it the hash that comes last in text order |
| SelectionLaws.HalfEvenExactly | src/fieldtrue/active_selection.py:92-96 | rounding gives n millionths if and only if no other n is nearer, and n is even where the value lies halfway |
| SelectionLaws.ScoreSpelled | src/fieldtrue/active_selection.py:490-522 | every entry is recorded under its ID and hash with its rounded cost; safe ones with rounded gain and gain per cost, others with zeros |
| ActionSelection.ChoiceIndependenceExactly | src/fieldtrue/active_selection.py:457-466 | for any score list, the chosen ID and hash or the error is independent of the order if and only if all entries tied at the top or sharing a top entry's ID agree on ID and hash and are eligible |
| ActionSelection.OrderIndependenceExactly | src/fieldtrue/active_selection.py:478-532 | the same for every catalog, repeated IDs included, through the refusals before scoring |
| ActionSelection.DistinctIdsOnlyTie | src/fieldtrue/active_selection.py:478-532 | with distinct IDs that condition says that no two entries tie at the top |
| ActionSelection.DistinctActionsDecide | src/fieldtrue/active_selection.py:478-532 | distinct IDs and action vectors with distinct hashes make the outcome independent of catalog order, refusals included |
| ActionSelection.SameVectorOrderMatters | src/fieldtrue/active_selection.py:524-532 | two IDs for one action vector: the first in the catalog is selected |
| ActionSelection.RepeatedIdOrderMatters | src/fieldtrue/active_selection.py:457-466 | a refused entry before a safe one with its ID makes the result invalid, after it does not |
| TokenScan.OccursInWindow | src/fieldtrue/acquisition.py:1926-1941 | a token ending in the new chunk lies wholly in the kept overlap and the chunk |
| TokenScan.ScanOpaqueIdentityTokens | src/fieldtrue/acquisition.py:1915-1943 | for every split into reads the result is exactly the eligible tokens occurring in the lower-cased whole file, sorted; refused exactly when the file is not the bound artifact |
| TextLaws.LowerSpelled | src/fieldtrue/acquisition.py:1939 | lower-casing replaces the twenty-six ASCII capitals by their small letters and nothing else |
| TextLaws.EightBytes | src/fieldtrue/acquisition.py:1920-1924 | a token is searched for if and only if it has at least eight bytes |
| TokenScan.SplitsAgree | src/fieldtrue/acquisition.py:1934-1943 | two scans of one content return the same tuple however the reads split it |
| RecoveryWalk.VisitedIsFilter | src/fieldtrue/handoff.py:864-944 | the pruned walk reaches exactly the leaves with no exclusion above them, in order |
| RecoveryWalk.WalkAgreesExactly | src/fieldtrue/handoff.py:792-802 | walk and flat filter select the same files if and only if no selected leaf lies under a special path |
| RecoveryWalk.WalkAgrees | src/fieldtrue/handoff.py:858-959 | they agree whenever root HANDOFF.md, root .coverage and the ledger path are not directories |
| RecoveryWalk.MisplacedDiffers | src/fieldtrue/handoff.py:792-802 | a directory named HANDOFF.md is skipped by the walk and listed by the flat rule |
| RecoveryWalk.Walker.Walk | src/fieldtrue/handoff.py:864-944 | a directory's walk succeeds exactly when everything reached is readable and all limits hold, and then adds exactly the visited leaves and directories |
| RecoveryWalk.TallyCounts | src/fieldtrue/handoff.py:914-920 | the running totals are the number of visited files, the sum of their sizes and the number of directories |
| RecoveryWalk.RecoveryManifest | src/fieldtrue/handoff.py:858-959 | the manifest is a path-sorted permutation of the visited files and its byte total is the sum of their sizes |
| RecoveryWalk.GitEligibleFiles | src/fieldtrue/handoff.py:1814-1876 | the committed inventory is the map of the selected leaves, refused exactly for irregular, repeated, missing or oversized ones |
| TreeLaws.SelectedSpelled | src/fieldtrue/handoff.py:792-802 | the flat rule keeps a path if and only if its first name is no excluded root, no name above it is a cache directory, and it is none of the three paths |
| TreeLaws.VisitedSpelled | src/fieldtrue/handoff.py:858-926 | the walk visits exactly the leaves with no excluded root, no cache directory above, and none of the three paths as a prefix |
| TreeLaws.LimitsSpelled | src/fieldtrue/handoff.py:858-959 | a tree fits if and only if its visited leaves are readable files of at most 16 MiB, and their number, their bytes, the directories, the names and the depth of every directory stay within the literal limits |
| TreeLaws.PosixSpelled | src/fieldtrue/handoff.py:799 | three names are joined by slashes |
| RecoveryWalk.CleanWorktreeIsBound | src/fieldtrue/handoff.py:1879-1915 | a worktree equal to the committed tree passes the manifest binding, in whatever order the tree is listed, if and only if no selected leaf lies under a special path |
| Finalization.WrapperIsTransparent | src/fieldtrue/handoff.py:2001-2021 | a wrapper is accepted exactly when its second parent as HEAD is a plain final commit, and carries its tree or clashes with it under one tree ID |
| Finalization.AcceptedHeadCarriesSubject | src/fieldtrue/handoff.py:2547-2646 | outside bundle, ledger and HANDOFF.md every path at HEAD is the validated subject's; the bundle is the evidence's; the ledger is the subject's or strictly extends it, unless HEAD's and its parent's trees clash under one ID |
| TreeLaws.AcceptedLineage | src/fieldtrue/handoff.py:1947-2031 | the evidence commit's only parent is the subject; HEAD is it, or a commit on it that carries the ledger and the handoff as regular blobs, or a merge of that commit with an ancestor's line and the same tree |
| Admission.UniquenessFailures | src/fieldtrue/acquisition.py:3306-3326 | the loops report nothing exactly when roots, groups and lineages differ, sessions have one group and hardware one family and domain |
| Admission.UniqueSpelled | src/fieldtrue/acquisition.py:3306-3326 | a corpus is unique if and only if any two incidents differ in root, independence group, lineage and session, and no hardware has two families or domains |
| Admission.CoveragePassed | src/fieldtrue/acquisition.py:3554-3597 | the counters and grouped sets pass exactly when every floor holds of the corpus |
| Admission.FloorsSpelled | src/fieldtrue/acquisition.py:3560-3597 | the floors hold if and only if the corpus has thirty incidents, three families, six identities and three faults, every required domain and all three splits, and each single incident's family, fault and hardware are frequent, mixed and no majority |
| Admission.Audit | src/fieldtrue/acquisition.py:3598-3681 | each of the five verdicts holds exactly under its condition on the corpus and the other findings |
| Admission.SessionsDiffer | src/fieldtrue/acquisition.py:3309-3318 | no two incidents of a unique corpus share an acquisition session |
| Admission.HoldoutKeeps | src/fieldtrue/acquisition.py:3560-3569 | holding out one value of a field keeps every value of another that meets two of its values |
| Admission.PassingCorpusSupportsHoldouts | src/fieldtrue/acquisition.py:3573-3597 | a passing corpus has 30 incidents with different sessions, lineages and groups, hardware partitioned by family, and every single family, hardware or fault holdout keeps what it must |
| CensusSessions.CensusSession.Retrieve | src/fieldtrue/census_execution.py:368-406 | a refusal leaves session and disk as they were; a success adds one record, one manifest line and the blob; other sessions' stores stay as they are |
| CensusSessions.CensusSession.RecordFailedGate | src/fieldtrue/census_execution.py:365-366 | adds the candidate to the stopped ones and changes nothing else |
| CensusSessions.CensusSession.ExecutionBinding | src/fieldtrue/census_execution.py:409-416 | the bound count is the manifest's length and the bound bytes lie between the recorded sum and the ceiling |
| CensusSessions.Open | src/fieldtrue/census_execution.py:332-363 | opens exactly for a valid lease under the frozen ceiling on an unused session ID, with an empty store; refusals change nothing |
| CensusSessions.OpensExactly | src/fieldtrue/census_execution.py:208-253 | opening succeeds if and only if the ID is unused, the lease is signed, of the approved scope, binds the registry, restates each of the five literal ceilings and is in its window, and the registry parses |
| CensusSessions.RunKeepsInvariant | src/fieldtrue/census_execution.py:365-406 | in every reachable state the recorded sum is at most the counter, the counter at most the ceiling, the manifest is the records, blobs sit under their digests, every record lies in window and frame; nothing stored is lost |
| CensusSessions.RecordsStem | src/fieldtrue/census_execution.py:368-407 | a record stands in a session if and only if some operation was a request that succeeded in every respect, stayed under the ceiling at that point and whose candidate had failed no gate before |
| CensusSessions.BytesExactly | src/fieldtrue/census_execution.py:386-406 | over every run the counter is the recorded sum plus the bytes of responses whose record was invalid |
| CensusSessions.WellTypedAccounting | src/fieldtrue/census_execution.py:386-406 | the counter is the recorded sum if and only if every counted response with an ill-typed request or final URI was empty; with well-typed requests it always is |
| CensusSessions.IllTypedIsCounted | src/fieldtrue/census_execution.py:388-402 | an accepted response for a candidate ID that is no identifier is counted and stored, and nothing is recorded |
| CensusSessions.CeilingRefusesReceived | src/fieldtrue/census_execution.py:382-387 | a session's first request reaches the transport and is refused by the ceiling for the body received |
| CensusSessions.RedirectedOutIsRecorded | src/fieldtrue/census_execution.py:378-402 | a retrieval redirected to a host outside the frame is recorded |
| CensusSessions.SmallFrameOpens | src/fieldtrue/census_execution.py:332-363 | the setting of these three inputs is one a session opens with |
| CensusSessions.FailedGateStops | src/fieldtrue/census_execution.py:365-375 | after a candidate's failed gate no record is ever made for it |
| CensusSessions.BlobsWereRetrieved | src/fieldtrue/census_execution.py:388-392 | every blob of the store is the body of a counted retrieval of the run |
| CensusSessions.BodyStaysStored | src/fieldtrue/census_execution.py:389-392 | every counted body stays in the store under its digest for the whole run, unless a different body counted earlier has that digest and stands there |
| CensusSessions.ContactExactly | src/fieldtrue/census_execution.py:368-384 | a request refused for window, stop rule, scheme or frame is refused alike whatever the transport would answer, and every other one reaches the transport |
| CensusSessions.CeilingNeedsResponse | src/fieldtrue/census_execution.py:386-387 | in every reachable state a request refused by the ceiling reached the transport, and would pass with an empty body |
| CensusSessions.FinalHostUnchecked | src/fieldtrue/census_execution.py:378-384 | a recorded retrieval would be recorded alike for any other non-empty final URI |
| CensusSessions.OpensOnce | src/fieldtrue/census_execution.py:357-363 | over any sequence of openings on one store each session ID opens at most once |

## Left out

- Descriptor-level reading, stat comparison, subprocess launch and Git execution: their results are inputs.
- Signatures and the interior of SHA-1 and SHA-256: abstract functions.
- Python floats: rounding, overflow and the 1e-9 tolerances of probability sums; Decimal precision of 40 digits.
- CanonicalJson.LoadsDumpsExactly: the reader is that of the compact canonical form only; number tokens are opaque, so JSON with other spacing or non-ASCII text is outside it (the ledger refuses such lines by the canonical comparison).
- Normalization.SameCanonicalText: two numeric objects are the same value only when their tokens are equal.
- Ledger.FinalHashDeterminesLedger: the single-field ledger validators (timestamps, actor, costs, stages) and URI splitting and case folding are abstract predicates of the environment.
- History.VerifyHistory: the bootstrap ceremony, tree, protected-path and whitespace policies are abstract predicates; they read no state the proofs use.
- AnchorCaches.AnchorCache.VerifyMemoryBytes: when a review bound is reached the model reports that as its own outcome, where the source raises the same error class as a refusal.
- SourceContents.GitSourceContents: Python's `int()` on text is an abstract partial function that reads canonical decimals.
- TestSelection.SelectDiscriminatingTest: the approval signature is an abstract function from candidate and envelope to a verified receipt hash; the receipt fields copied into the result are not modelled.
- The gain estimate over frozen disturbance draws in active selection (src/fieldtrue/active_selection.py:371-428): it uses a deliberately mismatched likelihood, so its clamp is live and only its result enters `ActionSelection` as a number.
- ActionSelection.SelectAction: the error a gain estimate raises for a label outside the space is not modelled.
- GradedLab.TrueResidualBounded: draws are arbitrary numbers per step rather than four hash bytes, which only widens the claim.
- RecoveryWalk.Walker.Walk: a tree is a snapshot, so changes during traversal are not modelled; a hard-linked file, link or device is one Irregular node.
- RecoveryWalk.GitEligibleFiles: malformed listing text and malformed object IDs are refused by parsing that is not part of this model; the blob batch it calls is `BlobBatch`.
- Finalization.AcceptedHeadCarriesSubject: the receipt's content, plan, coverage and JUnit recomputation are not modelled, only the commit, tree and bundle conditions.
- Admission.Audit: dossier eligibility, near-duplicate fingerprints, split-lock content, attestations, rights and resources enter as findings.
- CensusSessions.Open: lease hash derivation and frame-registry parsing are abstract; a failure to create the store directory is not modelled.
- CensusSessions.CensusSession.Retrieve: the network transport is a recorded answer; disk failures between counting, storing and listing are not modelled.
- Snapshot worker, module binding, import guards, Markdown rendering, command lines, frozen literals, the control producer, launcher, observation and experiment modules: presentation, runtime or equality lookups with no state to reason about.
- The modules `memory`, `splits`, `receipts`, `runner_trust` and `shortcut_v2` are not part of this model.
