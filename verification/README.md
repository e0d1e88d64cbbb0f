# StatePort release pipeline: a verified model

StatePort's release pipeline is a set of gates that fail closed, joined by what one writes and the
next reads. This project models the gates in which a mistake would be hard to see, and proves
what they promise together, for every input, every run and every reachable state.

- **Evidence collection** (`EvidenceStore`, `EvidenceRuns`, `EvidenceResume`, `EvidenceProgress`,
  `EvidenceCollector`, `ScanSuppression`, `ScanEvaluation`, `ScanVerdicts`, `Freshness`): an output root with create-only files whose
  runs may stop between any two operations or inside a write; the suppression verdict, the
  exception ledger and the age of the vulnerability database.
- **Assembly and signing** (`SuppressionAgreement`, `SuppressionExactness`, `SuppressionRecords`, `Semver`,
  `ReleasePrecedence`, `VersionGrammar`, `QualificationEvent`, `ReleaseChain`, `AuthChallenge`,
  `AuthGrammar`): the second, separately
  written checker of the same evidence, the version orders, and the hash-linked chain of releases
  with its re-derivation.
- **Public export** (`JavaScriptLexer`, `JavaScriptTokenizer`, `LexerTheorems`, `Lexemes`,
  `ModuleSpecifiers`, `SpecifierForms`, `ImportTexts`, `PosixPath`, `WebImports`, `ImportClosure`,
  `ExportPolicy`, `ExportCandidate`, `ExportMeaning`, `TreeSnapshot`): a
  hand-written tokenizer, the import resolver on top of it, the allowlist and the all-or-nothing
  verdict.
- **Immutable release set** (`ImmutableSet`, `ImmutableReader`, `ImmutableRuns`): a manifest that may only grow, over
  any history of runs and tree changes.
- **Files** (`SafeIO`, `SafeIOEffects`, `SafeIODurability`, `SafeFileSystem`, `SafeIORuns`): create-only writes and
  removals under a private root, with a schedule that says which system call fails.
- **The closure gate** (`RemoteBinding`, `RemoteAttempts`, `RemoteVerdicts`, `ClosureGate`), **the release bundle**
  (`ReleaseTree`, `PackageLock`, `PackageArchive`, `PackageBuild`, `PackageMeaning`) and **sink discovery**
  (`SinkNames`).

`Text` holds strings, their order, splitting and trimming.

Code that works step by step is a method, or a class whose methods change its fields, proved
against a specification function or predicate; the theorems are about those specifications.
Digests are arbitrary functions, and where a result needs them not to collide it says on which
values. Clocks, processes, the registry, GitHub and regular expression engines are parameters that
may answer anything.

Some promises do not hold as they are usually put. Each is kept as the code has it, with a
concrete case and the exact condition:

- The rendered manifest does not escape what its reader unescapes, so the round trip depends on the
  names (`ImmutableSet.RoundTripExact`, `ImmutableRuns.EscapedNameBreaksTheManifest`).
- The collector trims the pinned tool version, rule keys and rule ids and the assembler does not, so
  under a given expression engine they agree on all scans if and only if no verdict can be clean, or
  the pinned version, every rule key, and the id of every rule that can cover a finding are free of
  surrounding white space (`SuppressionExactness.AgreementIsExact`, with a scan for each failure in
  `UntrimmedPinDisagrees`, `UntrimmedKeyDisagrees` and `UntrimmedIdDisagrees`).
- A grace record exactly at its bound in whole seconds is written by the collector and refused by
  the assembler (`Freshness.ProofAcceptance`, `Freshness.GraceRecordCanBeRefused`).
- The assembler's version key is not the order of the release contract, the precedence of SemVer
  2.0.0. They agree between different cores, never between a release and its pre-release, and on
  pre-releases of one core exactly where label and number sort alike
  (`ReleasePrecedence.DifferentCoresAgree`, `ReleaseAndPreReleaseNeverFollow`,
  `NumberedOrdersAgree`, `BareLabelsAgree`); a first beta can never be assembled on a later alpha
  (`ReleasePrecedence.BetaNeverFollowsALaterAlpha`).
- The documentation of the gate says that a run that did not succeed fails it. It does so if and only
  if the run binds, every required job having succeeded (`RemoteAttempts.FailedMeansBound`); a run that
  failed because of a job is unavailable (`RemoteAttempts.FailedRunCanBeUnavailable`).
- Dates of dispositions are compared between neighbours only, so along a chain they do not go back where
  all are given (`ReleaseChain.TransitionsNeverRegress`) and can where one is missing
  (`ReleaseChain.DatesCanRegress`).
- Open descriptors are as before a write, unless a directory that was on the way is shared and the walk
  gets to it before a call fails (`SafeIOEffects.LeakIsExact`, `SafeIOEffects.SharedDirectoryLeaks`).

`dafny verify dfyconfig.toml` verifies the project.

## Model

| member | source | states |
|---|---|---|
| EvidenceStore.NamesAreInjective | scripts/collect_release_evidence.py:98-110 | (image, output) to file name is injective for every image name, although some suffixes end in others |
| EvidenceStore.ImagesAreDisjoint | scripts/collect_release_evidence.py:1909-1913 | two images never share an output name, so discarding one never touches the other |
| EvidenceRuns.NoCreateOnlyCollision | scripts/collect_release_evidence.py:1916-1967 | collecting an image on resume, whatever the root holds, or fresh where none of its names is taken, succeeds in every create-only write, leaves the ten artifacts and the manifest that describes them, and changes no other name |
| EvidenceRuns.WritesInOrder | scripts/collect_release_evidence.py:1534-1763 | a collection writes eleven files of fixed names in a fixed order, the scan and its verdict among them; the manifest comes last and lists the ten before it, each with the digest of what was written, and the verdict they passed or failed with |
| EvidenceResume.InterruptedImageIsSound | scripts/collect_release_evidence.py:1534-1763 | wherever the collection of an image stops, even inside a write, no readable manifest describes files that are not there |
| EvidenceResume.ManifestComesLast | scripts/collect_release_evidence.py:1718-1726 | a manifest appears only by the last write of an image, on top of all its artifacts |
| EvidenceResume.InterruptedRunIsSound | scripts/collect_release_evidence.py:1916-1967 | a run over any list of images keeps a sound root sound wherever it stops |
| EvidenceResume.EveryReachableRootIsSound | scripts/collect_release_evidence.py:1916-1967 | every root left by any number of crashed, refused, resumed or complete runs is sound |
| EvidenceResume.RunGuarantees | scripts/collect_release_evidence.py:1790-1967 | a run that returns, resumed over a sound root or fresh over a clear one, yields one manifest per image, in order, and at the end each is bound to the release, matches every artifact it lists and passed the ledger on the day it was judged |
| EvidenceResume.FirstOccurrencesInOrder | scripts/collect_release_evidence.py:1916-1967 | requested images are taken once each, in the order of their first occurrence |
| EvidenceResume.CrashSafeResume | scripts/collect_release_evidence.py:1916-1967 | after any history, a resume that runs to its end and returns gives exactly the first occurrences of the requested images with that guarantee |
| EvidenceResume.CheckpointIsExact | scripts/collect_release_evidence.py:1790-1906 | in a reachable root a checkpoint of this release is accepted if and only if its stored verdict passed and its scan passes today |
| EvidenceProgress.TakeFrame | scripts/collect_release_evidence.py:1909-1967 | taking one image, resumed or fresh, changes nothing for the others |
| EvidenceProgress.RunReturns | scripts/collect_release_evidence.py:1916-1967 | a run, resumed over a sound root or fresh over one where no name of a requested image is taken, returns if and only if every requested image can be taken in the root before the run: on resume it has a checkpoint of this release that passes today, or no manifest and a passing scan; fresh, its scan passes |
| EvidenceProgress.RunLeaves | scripts/collect_release_evidence.py:1916-1967 | all of what a run leaves, whether it returns or is refused: the files of every image taken, what the image it stopped at has published, and nothing else changed |
| EvidenceProgress.ResumeMakesProgress | scripts/collect_release_evidence.py:1790-1967 | after any history of stopped runs a resume that is not stopped returns if and only if something is requested, all of it is available, and every requested image can be taken in the root it finds |
| EvidenceProgress.FreshRunReturns | scripts/collect_release_evidence.py:1916-1967 | a fresh run returns if and only if the root is empty, something is requested, all of it is available and every scan passes; a refusal for any other reason than a scan leaves the root untouched |
| EvidenceProgress.FreshRunGuarantees | scripts/collect_release_evidence.py:1916-1967 | a fresh run that returns leaves exactly the files of the requested images and gives one manifest per image in order of first occurrence, each with the guarantee of a resume |
| EvidenceProgress.ChangedArtifactRefuses | scripts/collect_release_evidence.py:1790-1906 | in any root whatever, a resume over an image whose readable manifest lists one of its files that is missing or changed does not return |
| EvidenceCollector.OutputRoot.constructor | scripts/collect_release_evidence.py:1916-1967 | a root starts with the given files |
| EvidenceCollector.OutputRoot.WriteCreateOnly | scripts/collect_release_evidence.py:1615-1615 | a write fails on an existing name and never changes an existing file |
| EvidenceCollector.OutputRoot.DiscardPartialImage | scripts/collect_release_evidence.py:1909-1913 | removes all eleven names of one image and nothing else |
| EvidenceCollector.OutputRoot.CollectImage | scripts/collect_release_evidence.py:1534-1763 | the files are those of the eleven writes in order; a manifest is returned if and only if no write collided and the scan passed, although a failing one is published first |
| EvidenceCollector.OutputRoot.VerifiedCheckpoint | scripts/collect_release_evidence.py:1790-1906 | the loop over the inventory accepts exactly the checkpoints the specification accepts |
| EvidenceCollector.OutputRoot.CollectMany | scripts/collect_release_evidence.py:1916-1967 | an uninterrupted run performs exactly the operations of its trace and has its outcome |
| ScanSuppression.LoadContract | scripts/collect_release_evidence.py:1029-1104 | accepts exactly the contracts with the expected suppression rule and tool name, a version of the right form, provenance, and well-formed, unique, justified and dated rules whose patterns compile |
| SuppressionRecords.ContractIsExact | scripts/collect_release_evidence.py:1029-1104 | a contract is accepted if and only if it has a resolution day, a suppression rule that is not blank, the tool grype with a dotted version and a provenance, and one to thirty-two rules, each numbered, dated, justified and complete with an expression that compiles, no two alike in id or in the three parts of the key |
| ScanSuppression.Classify | scripts/collect_release_evidence.py:1264-1296 | gated findings are counted once: covered by rule plus uncovered equals the total, with the uncovered ones in scan order |
| ScanSuppression.TallyConserves | scripts/collect_release_evidence.py:1264-1296 | the coverage counters add up to the covered findings |
| ScanSuppression.SuppressionVerdict | scripts/collect_release_evidence.py:1188-1372 | the verdict of the loops; covered plus uncovered is the gated total, at most the total, and uncovered findings always bring a refusal |
| SuppressionAgreement.RequireDeclaredSuppression | scripts/assemble_release_index.py:739-898 | the signed facts are produced exactly for the records the assembler accepts, with the binding expiry and the applied rules in order |
| SuppressionAgreement.SumValues | scripts/assemble_release_index.py:739-898 | the sum of the coverage counters |
| SuppressionAgreement.CheckersAgree | scripts/assemble_release_index.py:739-898 | for an accepted contract in which the pinned version, every rule key and the id of every rule that can cover a finding carry no surrounding white space, on every scan, day and threshold the assembler accepts the projected record if and only if the collector verdict has no refusal, no declared rule has expired and the binding expiry is not in the past |
| SuppressionAgreement.AcceptanceExplainsEveryFinding | scripts/assemble_release_index.py:739-898 | acceptance implies that every suppressed finding at or above the threshold was filtered by a declared, justified and unexpired rule |
| SuppressionRecords.AcceptanceIsExact | scripts/assemble_release_index.py:739-898 | for every record whatever, not only projected ones: accepted if and only if it lists the ids of the contract in order, the last rule of each id is justified, every rule in effect is one of these word for word, nothing is reported, the scanner is pinned, the counts are positive, of declared rules and add up, and the declaration had not lapsed |
| SuppressionExactness.UntrimmedKeyDisagrees | scripts/collect_release_evidence.py:1375-1404 | under a contract that can be clean, a rule whose declared key carries white space makes the checkers disagree on a scan of the first calendar day |
| SuppressionExactness.UntrimmedPinDisagrees | scripts/assemble_release_index.py:831-838 | white space around the pinned version, which the collector trims, makes them disagree under every contract that can be clean |
| SuppressionExactness.UntrimmedIdDisagrees | scripts/collect_release_evidence.py:1375-1404 | so does white space around the id of a rule that can cover a finding with the given expression engine |
| SuppressionExactness.AgreementIsExact | scripts/collect_release_evidence.py:1029-1111 | for every accepted contract, pinned version and expression engine, the checkers agree on every scan, day and threshold if and only if no verdict can be clean or the contract and the pinned version are well written |
| SuppressionExactness.CleanMeansCanBe | scripts/collect_release_evidence.py:1188-1372 | a clean verdict on any day shows that the contract can be clean and that the pinned version is the one it names |
| SuppressionExactness.FirstDayIsFirst | scripts/collect_release_evidence.py:1188-1372 | no calendar day comes before the day the counterexamples use |
| ScanEvaluation.MatchingException | scripts/collect_release_evidence.py:1415-1441 | the first exception that applies, and none exactly when the finding is unexplained |
| ScanEvaluation.EvaluateScan | scripts/collect_release_evidence.py:1444-1531 | the unexplained findings, the exceptions applied, the suppression verdict and a pass exactly when both are clean |
| ScanEvaluation.PassingIsMonotone | scripts/collect_release_evidence.py:1444-1531 | what passes on a day passes on every earlier day, under any larger ledger and any higher threshold |
| ScanEvaluation.LedgerOrderIsIrrelevant | scripts/collect_release_evidence.py:1415-1441 | reordering the ledger never changes pass or fail |
| ScanEvaluation.NamedExceptionCanChange | scripts/collect_release_evidence.py:1415-1441 | of two exceptions that apply the first is named, so reordering can change which |
| ScanVerdicts.CoverageIsExact | scripts/collect_release_evidence.py:1264-1296 | a suppressed finding is covered if and only if one of the rules that filtered it is the declared rule in force under that key, justified and unexpired, and fits its match type and package, and it is counted for the first such rule |
| ScanVerdicts.VerdictIsExact | scripts/collect_release_evidence.py:1188-1372 | the suppression verdict has no refusal if and only if every rule in effect is declared, every declared rule is justified, every suppressed finding at the threshold is covered, and a declared version is the observed and the pinned one |
| ScanVerdicts.PassesIsExact | scripts/collect_release_evidence.py:1444-1531 | a scan passes if and only if an exception excuses every finding at the threshold and the suppression verdict is clean |
| ScanVerdicts.FindingsInOrder | scripts/collect_release_evidence.py:1264-1296 | suppressed findings are gated, counted or left uncovered one by one in scan order |
| ScanVerdicts.OneFinding | scripts/collect_release_evidence.py:1264-1296 | one suppressed finding is gated if and only if it is at the threshold, and is then counted for a rule or left uncovered |
| ScanVerdicts.RulesInOrder | scripts/collect_release_evidence.py:1188-1262 | expired and unjustified rules are listed one by one in their order |
| ScanVerdicts.OneRule | scripts/collect_release_evidence.py:1188-1262 | one rule is listed as expired, or as unjustified, if and only if it is |
| ScanVerdicts.EntriesInOrder | scripts/collect_release_evidence.py:1188-1262 | undeclared rules in effect are listed one by one in their order |
| ScanVerdicts.OneEntry | scripts/collect_release_evidence.py:1188-1262 | one rule in effect is listed as undeclared if and only if no declared rule has its key |
| ScanVerdicts.ReportInOrder | scripts/collect_release_evidence.py:1444-1531 | the report lists findings one by one in scan order |
| ScanVerdicts.OneReport | scripts/collect_release_evidence.py:1415-1531 | a finding below the threshold is not reported; one at it is unexplained or listed under the first exception that excuses it |
| Freshness.AgesAgree | scripts/assemble_release_index.py:1208-1247 | the age the collector rounds and the one the assembler recomputes from whole seconds differ by less than the tolerance |
| Freshness.StampedAgeStaysBelow | scripts/collect_release_evidence.py:545-613 | truncating both instants to seconds cannot push an age over a whole-hour bound |
| Freshness.ProofAcceptance | scripts/assemble_release_index.py:1208-1247 | of every record the collector can produce, the assembler accepts exactly the fresh ones and the grace ones whose whole-second age still exceeds the bound |
| Freshness.GraceRecordCanBeRefused | scripts/assemble_release_index.py:1208-1247 | for every limits there is a grace record the assembler refuses: half a second past the bound |
| Freshness.StatusIsExact | scripts/collect_release_evidence.py:545-613 | a record is fresh if and only if the limits make sense, the database is valid and its age at most the normal maximum, and grace if and only if it is older, within the latest maximum and a recent check found nothing newer; there is none otherwise, and what it records |
| Freshness.RefreshIsExact | scripts/collect_release_evidence.py:545-613 | when a refresh gives a record at all, and what each exit code of the check is recorded as |
| Freshness.ProofMeansRecord | scripts/assemble_release_index.py:1208-1247 | on whole-second times the assembler accepts a record if and only if it is, but for the rounding of the age, the record the collector would make, its check is read correctly and nothing was observed after the scan |
| Freshness.CheckScanFreshness | scripts/assemble_release_index.py:2035-2055 | the loop passes exactly when every scan is fresh at the instant |
| Freshness.CheckQualificationTimestamp | scripts/assemble_release_index.py:2058-2072 | passes exactly when the event is not in the future and within every scan bound, and never without images |
| Freshness.GraceNeverQualifies | scripts/assemble_release_index.py:2035-2055 | proved grace evidence fails the freshness check at every instant |
| Freshness.SignedIndexIsFresh | scripts/assemble_release_index.py:2422-2435 | an index assembled and then signed has, per image, fresh-class evidence and one chain of instants from database build to signature within its bounds |
| Freshness.SigningWindow | scripts/assemble_release_index.py:2422-2435 | an assembled index can be signed exactly from its qualification until the first database or scan is too old or the index expires; the bound on the qualification adds nothing |
| Freshness.SigningIsExact | scripts/assemble_release_index.py:2422-2435 | on any scan blocks whatever the checks of signing hold if and only if no age is negative or over its bound, the qualification is within every scan bound, and the index has images and has not expired |
| Semver.LessIsTransitive | scripts/assemble_release_index.py:110-114 | the key order is transitive and strict |
| Semver.LessIsTotal | scripts/assemble_release_index.py:110-114 | two distinct keys are always ordered |
| Semver.KeyExists | scripts/assemble_release_index.py:98-114 | a semantic version has a key if and only if it has no build metadata or has a pre-release; otherwise the conversion raises |
| Semver.KeyIsInjective | scripts/assemble_release_index.py:98-114 | distinct keyed versions never tie |
| Semver.AlphaOrdersByNumber | scripts/assemble_release_index.py:110-114 | alpha.n sorts before alpha.m exactly when n < m |
| Semver.ReleaseSortsBeforeItsPreReleases | scripts/assemble_release_index.py:110-114 | a release sorts before each of its own pre-releases, against section 11 of SemVer 2.0.0 |
| ReleasePrecedence.PrecedesIsStrictOrder | packages/release-contracts/src/stateport_release/contract.py:4719-4738 | the order of the release contract is a strict total order on its keys |
| ReleasePrecedence.PreReleasePrecedesItsRelease | packages/release-contracts/src/stateport_release/contract.py:4719-4738 | in the contract every pre-release precedes its release |
| ReleasePrecedence.FollowsIsTransitive | scripts/assemble_release_index.py:1946-1954 | being later in both orders is transitive |
| ReleasePrecedence.ReleaseAndPreReleaseNeverFollow | scripts/assemble_release_index.py:1946-1954 | the two orders disagree on every release and pre-release of it, so neither can ever be assembled on the other |
| ReleasePrecedence.DifferentCoresAgree | packages/release-contracts/src/stateport_release/contract.py:4719-4738 | between versions with different cores the two orders always agree |
| ReleasePrecedence.LabelsBeforeDots | scripts/assemble_release_index.py:110-114 | how the text of numbered pre-releases sorts: as the labels do, except that a label going on with a hyphen sorts before the dot |
| ReleasePrecedence.NumberedOrdersAgree | packages/release-contracts/src/stateport_release/contract.py:4719-4738 | for label.number pre-releases of one core the orders agree if and only if the labels are equal or sort as the numbers do, or the numbers are equal and neither label goes on from the other with a hyphen |
| ReleasePrecedence.NumberedFollows | scripts/assemble_release_index.py:1946-1954 | one can be assembled on another if and only if its label is the same with a higher number, or later with a number that is not lower, hyphens aside |
| ReleasePrecedence.BetaNeverFollowsALaterAlpha | scripts/assemble_release_index.py:1946-1954 | a beta never follows an alpha with a higher number, nor that alpha the beta |
| ReleasePrecedence.BareLabelsAgree | scripts/assemble_release_index.py:110-114 | for pre-releases of one identifier the orders agree if and only if the identifiers end in the same number, or none, or sort as those numbers do |
| VersionGrammar.GrammarIsExact | scripts/assemble_release_index.py:98-101 | the versions are exactly the texts of three numbers without leading zero, a pre-release after a hyphen and build metadata after a plus sign where given, each of dotted words of letters, digits and hyphens |
| VersionGrammar.FirstDifferenceDecides | packages/release-contracts/src/stateport_release/contract.py:4719-4738 | between pre-releases the first identifier in which they differ decides, and where there is none the shorter comes first |
| VersionGrammar.PrecedenceIsExact | packages/release-contracts/src/stateport_release/contract.py:4719-4738 | a version has a place in the order of the contract if and only if no numeric identifier of its pre-release has a superfluous zero, and it is compared by the numbers and identifiers it is written with |
| VersionGrammar.KeyIsExact | scripts/assemble_release_index.py:110-114 | the key of a version without build metadata holds the numbers it is written with, its trailing number and its pre-release |
| VersionGrammar.NumbersDecide | packages/release-contracts/src/stateport_release/contract.py:4719-4738 | between versions written with different numbers, major before minor before patch decides in both orders, whatever pre-releases they have |
| QualificationEvent.ByIdKeepsMembers | scripts/assemble_release_index.py:2098-2100 | sorting by image id keeps the observations and gives increasing ids |
| QualificationEvent.CanonicalIsIdempotent | scripts/assemble_release_index.py:2075-2104 | a canonical event canonicalises to itself |
| QualificationEvent.CanonicalForm | scripts/assemble_release_index.py:2075-2104 | the canonical events are exactly those with distinct increasing image ids and the id that the rest digests to |
| QualificationEvent.CanonicalIgnoresOrder | scripts/assemble_release_index.py:2075-2104 | the canonical event depends neither on the order of the observations nor on the recorded id |
| QualificationEvent.AcceptedObservations | packages/release-contracts/src/stateport_release/contract.py:4786-4822 | observations the contract accepts are exactly those of the images, all fresh at the recorded time |
| QualificationEvent.AcceptedEventIsDerived | packages/release-contracts/src/stateport_release/contract.py:4745-4822 | the contract accepts an event, its format, result and freshness basis included, if and only if an assembly at the recorded time would derive that very event from the same images |
| QualificationEvent.CanonicalIsExact | scripts/assemble_release_index.py:2075-2104 | the canonical event of another is the one event that agrees with it but for the order of the observations, which is by id, and for the id, which digests the rest; there is none exactly when two observations share an image |
| QualificationEvent.EventIsExact | scripts/assemble_release_index.py:2107-2142 | the event of an assembly: a recorded one in canonical form whatever the request says, otherwise the qualified event of the requested time with one observation of each image, and none unless every scan is fresh then |
| ReleaseChain.RederivationMatches | scripts/assemble_release_index.py:2605-2617 | re-derivation from a recorded event reproduces the block if and only if its image ids are distinct and increasing, its id is the digest of the rest, disposition and claim are those the predecessor dictates, and the predecessor is active if it is in the same lane |
| ReleaseChain.OnlyTheLaneCanRefuse | packages/release-contracts/src/stateport_release/contract.py:4893-4928 | of all conditions on a transition only the status of a predecessor in the same lane can still refuse a derived disposition |
| ReleaseChain.RederivationIsIdentical | scripts/assemble_release_index.py:2107-2199 | an assembled block re-derives identically from its own event, whatever qualification time the request then carries |
| ReleaseChain.VerifiedBlockIsAssembled | scripts/assemble_release_index.py:2605-2617 | a block that re-derives and whose event the contract accepts is the block an assembly at the recorded time would produce |
| ReleaseChain.AssemblySucceeds | packages/release-contracts/src/stateport_release/contract.py:4893-4928 | when assembly succeeds, in terms of its inputs: a deprecated or withdrawn release has no successor in its own lane |
| ReleaseChain.ChainLink | scripts/assemble_release_index.py:2144-2181 | each release carries the next sequence number, the digest of its predecessor's disposition, and a claim with the identity, version, payload digest and index of that predecessor |
| ReleaseChain.ChainIsOrdered | scripts/assemble_release_index.py:1946-1954 | along every chain later releases follow earlier ones in both orders, so no version repeats and no cycle closes |
| ReleaseChain.ChainIsConsecutive | scripts/assemble_release_index.py:2144-2168 | sequence numbers are consecutive along every chain and start at one after a legacy release |
| ReleaseChain.ChainIsDetermined | scripts/assemble_release_index.py:2144-2181 | two chains that end in the same release hold the same releases all the way back |
| ReleaseChain.TransitionIsExact | packages/release-contracts/src/stateport_release/contract.py:4893-4928 | a transition holds if and only if it starts at one with no link, or raises the sequence, links to the block before, is not dated before it, and within a lane never takes a deprecation or withdrawal back |
| ReleaseChain.TransitionsNeverRegress | packages/release-contracts/src/stateport_release/contract.py:4893-4928 | over any number of transitions the sequence increases, each block holds the digest of the one before, within a lane a status is never taken back, and dates that are all given do not go back |
| ReleaseChain.DatesCanRegress | packages/release-contracts/src/stateport_release/contract.py:4893-4928 | an undated block in between lets dates go back |
| AuthChallenge.PiecesRejoin | scripts/assemble_release_index.py:237-255 | the pieces joined by commas are the challenge again |
| AuthChallenge.QuotedIsUncut | scripts/assemble_release_index.py:244-253 | a comma between quotes never splits, and the quotes are closed afterwards |
| AuthChallenge.UncutStays | scripts/assemble_release_index.py:244-253 | text without a cutting comma stays in one piece with what follows |
| AuthChallenge.SplitChallenge | scripts/assemble_release_index.py:237-257 | the loop gives the trimmed pieces, or nothing when a quote stays open |
| AuthChallenge.FindBearer | scripts/assemble_release_index.py:258-265 | the parts from the first Bearer one on, without the scheme |
| AuthChallenge.ParameterLoop | scripts/assemble_release_index.py:266-276 | every parameter or a refusal: malformed, unquoted or repeated |
| AuthChallenge.ParseChallenge | scripts/assemble_release_index.py:237-276 | splitting and reading together |
| AuthChallenge.RoundTrip | scripts/assemble_release_index.py:237-276 | for every non-empty list of parameters with names distinct up to case and values free of quotes and backslashes, the challenge made of them reads back as exactly them |
| AuthGrammar.SplitIsExact | scripts/assemble_release_index.py:237-257 | a challenge is cut in exactly one way into parts in which every quote is closed, at the commas between them and nowhere else, or has a quote left open |
| AuthGrammar.ItemIsExact | scripts/assemble_release_index.py:266-276 | one parameter is read if and only if it is a name, the first equals sign and a text in quotes, blanks aside, and then as the name in small letters and what the quotes hold |
| AuthGrammar.ItemsAreExact | scripts/assemble_release_index.py:266-276 | a list of items is read if and only if each is and no name repeats up to case |
| AuthGrammar.ParseIsExact | scripts/assemble_release_index.py:237-276 | a challenge is accepted if and only if it splits, a part has the Bearer scheme in any case, and the items from there on are parameters without repetition, and then with exactly their values |
| JavaScriptLexer.NextStep | scripts/export_public_candidate.py:909-1064 | every round moves strictly forward and appends at most one token per character it passes |
| JavaScriptLexer.SignificantStep | scripts/export_public_candidate.py:932-1064 | so does the part of it that meets neither blank nor comment |
| JavaScriptLexer.TokenBound | scripts/export_public_candidate.py:898-1064 | at most one token per character on every source |
| JavaScriptTokenizer.LookBack | scripts/export_public_candidate.py:933-936 | the look-back loop finds the last token that is no newline, and the one before it |
| JavaScriptTokenizer.ScanRegex | scripts/export_public_candidate.py:952-972 | the end of a regular expression with its flags, or none when it does not close on its line |
| JavaScriptTokenizer.ScanString | scripts/export_public_candidate.py:1000-1022 | the body of a quoted string, raw, with its escape mark, or the error of an open one |
| JavaScriptTokenizer.ScanTemplate | scripts/export_public_candidate.py:1024-1053 | the body of a template, with its escape and substitution marks, or the error of an open one |
| JavaScriptTokenizer.ScanFlags | scripts/export_public_candidate.py:966-968 | the flag letters after a regular expression |
| JavaScriptTokenizer.ScanWord | scripts/export_public_candidate.py:1055-1061 | the end of an identifier |
| JavaScriptTokenizer.StepAt | scripts/export_public_candidate.py:909-1063 | one round at an index depends on the text from there and the look-back tokens only |
| JavaScriptTokenizer.SignificantStepAt | scripts/export_public_candidate.py:932-1063 | the same for the part that meets neither blank nor comment |
| JavaScriptTokenizer.JavaScriptTokens | scripts/export_public_candidate.py:898-1064 | the loop computes the tokens that `LexIsExact` characterises, at most one per character |
| LexerTheorems.LexIsATransducer | scripts/export_public_candidate.py:898-1064 | from any state the continuation is a function of the remaining text and three look-back tokens, and earlier tokens never change |
| LexerTheorems.BlockCommentIsItsLineFeeds | scripts/export_public_candidate.py:924-931 | from every state a block comment behaves exactly like the line feeds inside it |
| LexerTheorems.LineCommentIsInvisible | scripts/export_public_candidate.py:920-923 | from every state a line comment contributes nothing |
| LexerTheorems.PiecesTile | scripts/export_public_candidate.py:898-1064 | the pieces read tile the source and carry its tokens in order |
| LexerTheorems.LiteralIsQuotedText | scripts/export_public_candidate.py:1000-1054 | every literal token is the text between quotes of a piece that is no comment |
| Lexemes.StringBodyIsExact | scripts/export_public_candidate.py:1000-1022 | a string closes at its first quote that no backslash escapes, unless its line or the text ends before, and is marked as escaped exactly when it holds a backslash; otherwise the error says whether it ended in an escape |
| Lexemes.TemplateBodyIsExact | scripts/export_public_candidate.py:1024-1053 | the same for a template, over lines, with the mark of a substitution |
| Lexemes.RegexClosesHere | scripts/export_public_candidate.py:952-972 | a regular expression ends at the first slash outside escapes and classes |
| Lexemes.LexemeStep | scripts/export_public_candidate.py:909-1063 | from every state of the loop, each lexeme that fits the last tokens becomes exactly its tokens |
| Lexemes.LexIsExact | scripts/export_public_candidate.py:898-1064 | a source has tokens if and only if it is a sequence of lexemes, each fitting the tokens before it by the written-out lists of what may precede a string or a regular expression, and those are its tokens; otherwise the error is of what is left open after the lexemes before it |
| Lexemes.StringsAreFound | scripts/export_public_candidate.py:932-1022 | no string is missed: at the start and after from, import or an opening bracket a quoted text becomes a string token, whatever stands before and after it |
| ModuleSpecifiers.FindNextSignificant | scripts/export_public_candidate.py:1067-1070 | the next token that is no newline |
| ModuleSpecifiers.FindFromClause | scripts/export_public_candidate.py:1111-1135 | the string of the from clause, within the window and outside brackets |
| ModuleSpecifiers.FindSpecifierAt | scripts/export_public_candidate.py:1078-1135 | the specifier a keyword introduces, if any |
| ModuleSpecifiers.FindSpecifiers | scripts/export_public_candidate.py:1073-1136 | the specifiers of a token list in order |
| ModuleSpecifiers.JavaScriptModuleSpecifiers | scripts/export_public_candidate.py:1073-1136 | the specifiers of a source, or its tokenizer error |
| ModuleSpecifiers.SpecifiersAreQuotedText | scripts/export_public_candidate.py:1073-1136 | every reported specifier is quoted text of the source, never comment or regular expression text |
| SpecifierForms.FromClauseIsFirst | scripts/export_public_candidate.py:1111-1135 | the clause loop finds a specifier exactly when the first from at bracket depth zero, before the declaration ends, is followed by that string |
| SpecifierForms.ReportedExactly | scripts/export_public_candidate.py:1073-1136 | the specifiers reported are those of strictly increasing tokens, each introduced as a bare import, a call or a from declaration, and no token that introduces one is passed over; the window of 512 tokens and the shadowing rules are written out |
| ImportTexts.DefaultImport | scripts/export_public_candidate.py:1073-1136 | the text import w from "m" reports m and nothing else, for every word and every plain module name |
| ImportTexts.NamedImport | scripts/export_public_candidate.py:1073-1136 | so do import and export of { w } from "m" |
| ImportTexts.StarExport | scripts/export_public_candidate.py:1073-1136 | so does export * from "m" |
| ImportTexts.BareImport | scripts/export_public_candidate.py:1073-1136 | so does import "m" |
| ImportTexts.CalledImport | scripts/export_public_candidate.py:1073-1136 | so do import("m") and require("m") |
| PosixPath.Normalize | scripts/export_public_candidate.py:1162-1164 | the component loop of POSIX path normalisation |
| PosixPath.CollapseFollowsTheWalk | scripts/export_public_candidate.py:1162-1169 | collapsing dots follows the walk while it stays below the root and otherwise shows that it climbed |
| PosixPath.NormPathStaysBelow | scripts/export_public_candidate.py:1170-1172 | the prefix test on a normalised relative path holds if and only if the walk never climbs out and ends strictly below the directory |
| PosixPath.RootedFollowsTheWalk | scripts/export_public_candidate.py:1162-1164 | in a rooted path a walk that stays below the root is followed and one that climbs out goes on from the root |
| PosixPath.NormalForm | scripts/export_public_candidate.py:1162-1164 | what normalising gives: up to two leading slashes, parts that climb only in front and only in a relative path, then plain names |
| PosixPath.NormPathIsIdempotent | scripts/export_public_candidate.py:1162-1164 | normalising twice changes nothing, for every path |
| WebImports.WebDependencyIssues | scripts/export_public_candidate.py:1147-1185 | the issues of all specifiers in order, each the one `IssueIsExact` characterises |
| WebImports.IssuesInOrder | scripts/export_public_candidate.py:1147-1185 | issues are found specifier by specifier, in order |
| ImportClosure.IssueIsExact | scripts/export_public_candidate.py:1147-1185 | every verdict on a specifier in terms of its text: which are external or not plainly written, where a relative or aliased one leads component by component from the directory of the source or from apps/web/src, which of the 33 endings is the first to give a tracked file there, and that it is accepted if and only if that file lies below apps/web and is exported |
| ImportClosure.RelativeLeads | scripts/export_public_candidate.py:1159-1169 | where a relative specifier leads, by its components |
| ImportClosure.AliasLeads | scripts/export_public_candidate.py:1159-1169 | where an aliased specifier leads, by its components |
| ImportClosure.CandidatesAreThese | scripts/export_public_candidate.py:1173-1184 | the candidates of a place are its text with each of the 33 endings, in order |
| ExportPolicy.OverlapIsSharedPath | scripts/export_public_candidate.py:432-448 | two selectors overlap if and only if some path is picked by both |
| ExportPolicy.AddPaths | scripts/export_public_candidate.py:435-440 | one rule's paths are added exactly when nothing overlaps |
| ExportPolicy.AddPrefixes | scripts/export_public_candidate.py:441-448 | one rule's prefixes are added exactly when nothing overlaps |
| ExportPolicy.CheckOverlaps | scripts/export_public_candidate.py:432-448 | the incremental check accepts exactly the policies without two overlapping selectors |
| ExportPolicy.AtMostOneMatch | scripts/export_public_candidate.py:543-551 | under an accepted policy no path string is selected twice, so the multiple-match error is unreachable |
| ExportPolicy.RuleOrderIsIrrelevant | scripts/export_public_candidate.py:543-551 | classification does not depend on the order of the rules |
| ExportCandidate.ExportCandidate | scripts/export_public_candidate.py:1222-1428 | the loops decide as specified, all or nothing |
| ExportCandidate.CheckImports | scripts/export_public_candidate.py:1292-1318 | the import loop passes exactly when the imports of every selected web source are closed |
| ExportCandidate.ExportIsSealed | scripts/export_public_candidate.py:1235-1428 | a success exports exactly the copyable tracked paths, all entries regular and classified, no detector literal in a blob or the manifest, every import closed inside the export |
| ExportCandidate.ExportIsExact | scripts/export_public_candidate.py:1222-1428 | a candidate is exported if and only if its selectors exist, it is new, stable and not empty, and its copyable entries are sealed |
| ExportCandidate.DefaultStopsTheExport | scripts/export_public_candidate.py:416-423 | a tracked path that only the default rule covers always stops the export |
| ExportMeaning.ClassifyIsExact | scripts/export_public_candidate.py:543-551 | a path has the class of the one rule that selects it by path or prefix, or the default, and classification fails if and only if two rules select it |
| ExportMeaning.ExportIsExactly | scripts/export_public_candidate.py:1222-1428 | the verdict in terms of names, modes, texts and literals: a candidate is exported if and only if every selector picks an entry, every entry is a regular blob of one class that is not unresolved, every public one is clean text that may be published with imports that lead inside, some are public, the manifest over them is clean, no review is carried and the tree held still |
| ExportMeaning.PayloadsInOrder | scripts/export_public_candidate.py:1235-1290 | payloads come entry by entry in tree order |
| ExportMeaning.OnePayload | scripts/export_public_candidate.py:1235-1290 | a public entry gives one payload with its rule and its bytes, any other none |
| TreeSnapshot.SnapshotStream | scripts/export_public_candidate.py:716-727 | the loop feeds the concatenated NUL-terminated fields |
| TreeSnapshot.StreamDecodes | scripts/export_public_candidate.py:716-727 | splitting the stream at NUL gives the fields back |
| TreeSnapshot.SnapshotIsInjective | scripts/export_public_candidate.py:716-727 | equal streams come from equal ordered listings |
| TreeSnapshot.SameSnapshotSameTree | scripts/export_public_candidate.py:586-608 | for all raw listings that parse, the same stream means the same ordered tree |
| TreeSnapshot.EntryIsExact | scripts/export_public_candidate.py:589-595 | an entry is read as path, mode and type if and only if it is the text mode, blank, type, blank, object, tab, path, the path being everything after the first tab |
| TreeSnapshot.ListingIsRead | scripts/export_public_candidate.py:586-608 | a NUL-terminated listing of entries reads back line by line in order |
| ImmutableSet.UnescapeName | scripts/immutable_release_set.py:149-164 | the loop undoes the escapes |
| ImmutableSet.ReadManifest | scripts/immutable_release_set.py:167-192 | the loop reads all entries or reports the first bad or conflicting line |
| ImmutableSet.TranslationKeepsLines | scripts/immutable_release_set.py:167-192 | the newline translation of reading as text changes no line, so it changes no entry |
| ImmutableSet.RoundTripExact | scripts/immutable_release_set.py:289-291 | reading a rendered manifest gives the entries back if and only if no name holds a line separator or starts with an asterisk or a backslash |
| ImmutableReader.ParseLineIsExact | scripts/immutable_release_set.py:167-192 | a line is blank, or an entry of a digest, two blanks and a name, or an error, and which |
| ImmutableReader.ReaderIsExact | scripts/immutable_release_set.py:167-192 | a text is read if and only if its lines are blank or entries and no path has two digests, and then as exactly the entries listed |
| ImmutableReader.NamesReadBack | scripts/immutable_release_set.py:149-164 | an escaped name reads back as the name whatever it holds, any other stands for itself without the leading asterisks |
| ImmutableReader.RenderedInOrder | scripts/immutable_release_set.py:289-291 | the rendered text line by line: each path once, in increasing order, after its digest and two blanks |
| ImmutableRuns.VerifyExisting | scripts/immutable_release_set.py:205-233 | the entries that are gone, in order, and those whose file now has another digest, in order; a refusal exactly when one cannot be joined safely |
| ImmutableRuns.Plan | scripts/immutable_release_set.py:236-275 | a union if and only if every pinned entry is still there with its digest, the root is a directory and every file in scope can be hashed; its keys are then the pinned paths and the scope, pinned ones with their pinned digest and those in scope with the digest the file has |
| ImmutableRuns.PinScope | scripts/immutable_release_set.py:250-275 | the loop refuses exactly when a file in scope cannot be hashed, and otherwise gives the union |
| ImmutableRuns.UnionExtends | scripts/immutable_release_set.py:250-275 | past the interlock no pinned digest changes in the union |
| ImmutableRuns.ManifestFile.constructor | scripts/immutable_release_set.py:303-380 | a file starts with the given text |
| ImmutableRuns.ManifestFile.Execute | scripts/immutable_release_set.py:303-380 | exit code and file after one invocation, the existing file compared after newline translation |
| ImmutableRuns.RunIsExact | scripts/immutable_release_set.py:303-380 | the exit code and the file after every run: 2 for an unreadable manifest, for a missing one in check mode, and for a change that check mode or a missing flag withholds; 1 for a tree that is not intact; 0 otherwise; the file is rewritten, to the rendered union, only outside check mode and when it is not current |
| ImmutableRuns.RunPins | scripts/immutable_release_set.py:303-380 | a run that succeeds outside check mode, the first one included, pins everything pinned before and every file in scope with the digest it has now; every other run pins what was pinned |
| ImmutableRuns.WrittenFileReadsBack | scripts/immutable_release_set.py:329-380 | a written file reads back as the union if and only if every name round trips |
| ImmutableRuns.RunExtends | scripts/immutable_release_set.py:329-380 | one run drops no pinned path and changes no digest |
| ImmutableRuns.ExtendOnly | scripts/immutable_release_set.py:329-380 | over every history of runs and tree changes, what was pinned stays pinned with the same digest |
| ImmutableRuns.ChangedByteRefuses | scripts/immutable_release_set.py:205-247 | once a pinned file changes, every later run that sees it exits with 1 and leaves the manifest alone |
| ImmutableRuns.SecondRunWritesNothing | scripts/immutable_release_set.py:329-380 | a second replacing run on an unchanged tree exits with 0 and writes nothing |
| ImmutableRuns.OtherLineEndsAreCurrent | scripts/immutable_release_set.py:371-375 | a copy of a current manifest with other line ends pins the same and is left as it is |
| ImmutableRuns.EscapedNameBreaksTheManifest | scripts/immutable_release_set.py:289-291 | without the condition on names one replacing run can leave an unreadable manifest |
| SafeFileSystem.RelativeParts | scripts/release_safe_io.py:34-41 | the parts of an accepted relative path, or a refusal |
| SafeIO.PartsRoundTrip | scripts/release_safe_io.py:29-41 | accepted texts are exactly the non-empty sequences of plain names joined by slashes |
| SafeFileSystem.FileSystem.constructor | scripts/release_safe_io.py:25-26 | a file system starts with the given nodes and schedule and nothing open |
| SafeFileSystem.FileSystem.Descend | scripts/release_safe_io.py:94-108 | one directory further, as the schedule has it: reached with its parent closed, stopped with nothing left open, or refused with the child left open |
| SafeFileSystem.FileSystem.WalkPrivate | scripts/release_safe_io.py:91-113 | the loop walks as specified, and leaves one descriptor open precisely when it stops at a directory that is not private |
| SafeFileSystem.FileSystem.WriteAll | scripts/release_safe_io.py:226-231 | under every schedule of partial writes the loop writes what is specified |
| SafeFileSystem.FileSystem.FillFile | scripts/release_safe_io.py:223-246 | from the identity check to the directory sync, as specified |
| SafeFileSystem.FileSystem.CreateIn | scripts/release_safe_io.py:217-252 | creates and fills the file as specified, its descriptor closed again |
| SafeFileSystem.FileSystem.CreateUnder | scripts/release_safe_io.py:215-252 | a write between opening and closing the root, one descriptor left open exactly when a directory is refused |
| SafeFileSystem.FileSystem.WriteBytesCreateOnly | scripts/release_safe_io.py:210-255 | ends as the specification does on the nodes and the schedule before the call, with the effect of a create-only write, and the open descriptors are as before if and only if no leak was ahead in that state |
| SafeFileSystem.FileSystem.RemoveFileExact | scripts/release_safe_io.py:258-284 | removes one singly linked file of the root as specified, descriptors balanced in every case |
| SafeFileSystem.FileSystem.UnlinkFile | scripts/release_safe_io.py:268-283 | the part of it between opening and closing the root |
| SafeFileSystem.FileSystem.UnlinkOpened | scripts/release_safe_io.py:272-280 | the part of it with the file open |
| SafeFileSystem.FileSystem.RemoveTreeExact | scripts/release_safe_io.py:333-373 | removes one private child with the expected identity as specified, descriptors balanced in every case |
| SafeFileSystem.FileSystem.RemoveAll | scripts/release_safe_io.py:363-369 | removes everything at or below a directory, or some part of it when the removal fails |
| SafeIOEffects.WalkGrows | scripts/release_safe_io.py:91-113 | a walk makes only private directories, on its way, and one that arrives reaches a private directory |
| SafeIOEffects.WriteHasItsEffect | scripts/release_safe_io.py:210-255 | whatever fails, a write changes no existing node; on success the file was not there and holds exactly the content, otherwise at most a leading part of it |
| SafeIOEffects.RemoveFileHasItsEffect | scripts/release_safe_io.py:258-284 | whatever fails, at most the one file is removed, and on success it is |
| SafeIOEffects.RemoveTreeHasItsEffect | scripts/release_safe_io.py:333-373 | whatever fails, only nodes at or below the named child are removed, and on success all of them |
| SafeIOEffects.WalkMeetsShared | scripts/release_safe_io.py:91-113 | the walk of a write stops at a directory that is not private if and only if one that was there before is shared and all calls before it succeed |
| SafeIOEffects.LeakIsExact | scripts/release_safe_io.py:210-255 | a write is going to leave a descriptor open if and only if the root opens and that is the case on the way to the target |
| SafeIOEffects.SharedDirectoryLeaks | scripts/release_safe_io.py:91-113 | writing a/b where a is shared leaves a descriptor open when no call fails |
| SafeIOEffects.KindWriteSucceeds | scripts/release_safe_io.py:210-255 | when nothing goes wrong a write succeeds if and only if the root is private, every directory on the way is private or missing, and the target is new |
| SafeIODurability.SuccessfulWrite | scripts/release_safe_io.py:210-255 | a write that reports success had no failing call, met private or missing directories only, and besides the calls that wrote made exactly as many as the open root, the directories on the way, the creation and the syncs need |
| SafeIODurability.SuccessfulRemoval | scripts/release_safe_io.py:258-284 | a removal that reports success made six calls that all went well; with nothing going wrong it succeeds exactly on a singly linked file in a private root |
| SafeIODurability.SuccessfulTreeRemoval | scripts/release_safe_io.py:333-373 | the same for a directory: four calls, and exactly on a private one with the expected identity |
| SafeIODurability.OneMoreWrite | scripts/release_safe_io.py:226-231 | the write loop goes on exactly while calls succeed and make progress, each taking what the schedule says up to what is left |
| SafeIODurability.NoMoreWrites | scripts/release_safe_io.py:226-231 | the loop stops at once when a call fails or writes nothing |
| SafeIORuns.Perform | scripts/release_safe_io.py:210-373 | every sequence of operations is a run, and descriptors are balanced at the end when no operation was to leak in the state it started in |
| SafeIORuns.PerformOne | scripts/release_safe_io.py:210-373 | one operation has its effect, and keeps the descriptors if and only if it was not to leak |
| SafeIORuns.StepKeeps | scripts/release_safe_io.py:210-373 | an operation changes no node and removes only what it names |
| SafeIORuns.StepAdds | scripts/release_safe_io.py:210-255 | what an operation adds lies strictly below the root; a file is at its target with a leading part of the content |
| SafeIORuns.BytesNeverChange | scripts/release_safe_io.py:210-373 | over every run a path that stays in use keeps its bytes |
| SafeIORuns.KeptUntilRemoved | scripts/release_safe_io.py:258-373 | what is there stays until a removal names it |
| SafeIORuns.OutsideIsUntouched | scripts/release_safe_io.py:34-41 | nothing outside the root is ever touched, nor the root itself |
| SafeIORuns.FilesComeFromWrites | scripts/release_safe_io.py:210-255 | every new file came from a write to its path and holds a leading part of that content |
| RemoteBinding.ByName | scripts/local_closure_gate.py:423-423 | the dictionary of jobs, where the last of a name wins |
| RemoteBinding.AnyMissing | scripts/local_closure_gate.py:424-426 | whether a required job is missing |
| RemoteBinding.CheckJobs | scripts/local_closure_gate.py:427-433 | the reason against the first required job that does not qualify, or none |
| RemoteBinding.BindRemoteRun | scripts/local_closure_gate.py:392-433 | no reason if and only if repository, workflow, event, commit, age, every required job and its runner labels bind; a job reason speaks of the first required job that fails |
| RemoteBinding.BoundMeansNoProblem | scripts/local_closure_gate.py:392-433 | the ordered reasons are absent exactly for bound runs |
| RemoteBinding.BoundMeans | scripts/local_closure_gate.py:392-433 | a run binds if and only if each written-out condition on repository, workflow, event, commit, age, jobs and labels holds |
| RemoteAttempts.Client.FindCompletedRun | scripts/local_closure_gate.py:337-341 | one listing, and the first concluded run of the commit |
| RemoteAttempts.Client.WaitForRun | scripts/local_closure_gate.py:378-389 | polling with sleeps until a run or the deadline, which `WaitIsExact` characterises |
| RemoteAttempts.Client.Probe | scripts/local_closure_gate.py:436-456 | the probes in order, with the reason of the first that fails |
| RemoteAttempts.Client.BoundAttempt | scripts/local_closure_gate.py:459-483 | the attempt a run leads to |
| RemoteAttempts.Client.Observe | scripts/local_closure_gate.py:486-514 | the attempt and the calls of an observation, which `ObservationIsExact` characterises |
| RemoteAttempts.Client.DispatchAndWait | scripts/local_closure_gate.py:517-570 | the attempt and the calls of a dispatch, which `DispatchIsExact` characterises |
| RemoteAttempts.PollingIsBounded | scripts/local_closure_gate.py:378-389 | a wait lists the runs at most once more per interval begun, on every clock that does not run backwards |
| RemoteAttempts.WaitingDoesNotDispatch | scripts/local_closure_gate.py:378-389 | a wait never dispatches, and a run it returns has concluded for the commit |
| RemoteAttempts.ObservingNeverDispatches | scripts/local_closure_gate.py:486-514 | for every behaviour of the client an observation dispatches nothing |
| RemoteAttempts.DispatchIsGuarded | scripts/local_closure_gate.py:517-570 | a dispatch happens, once and for main, if and only if the worktree is clean, all probes pass and the head of main is the commit |
| RemoteAttempts.BoundIsSound | scripts/local_closure_gate.py:459-483 | verified and failed both mean a bound run and differ in its conclusion; other attempts carry a catalogued reason |
| RemoteAttempts.ObservedIsSound | scripts/local_closure_gate.py:486-514 | the same for every observation |
| RemoteAttempts.DispatchedIsSound | scripts/local_closure_gate.py:517-570 | the same for every dispatch |
| RemoteAttempts.UnsuccessfulJobIsUnavailable | scripts/local_closure_gate.py:427-433 | a run with a required job that does not qualify is unavailable, never failed |
| RemoteAttempts.FailedMeansBound | scripts/local_closure_gate.py:459-483 | once its jobs are listed a run counts as failed, or as verified, if and only if it binds, every required job having succeeded, and its own conclusion is not, or is, a success |
| RemoteAttempts.FailedRunCanBeUnavailable | scripts/local_closure_gate.py:427-433 | a concrete run whose first job and own conclusion are both failure is reported as unavailable |
| RemoteVerdicts.ProbeIsExact | scripts/local_closure_gate.py:436-456 | the probes pass if and only if each answers as required, and otherwise give the reason of the first that does not |
| RemoteVerdicts.ReasonIsFirst | scripts/local_closure_gate.py:392-433 | the reason against a run is that of the first condition it does not meet |
| RemoteVerdicts.ObservationIsExact | scripts/local_closure_gate.py:486-514 | an observation is verified, or failed, if and only if the probes pass, the listing shows a concluded run of the commit, its jobs are listed, it binds, and its conclusion is, or is not, a success; otherwise it is unavailable for the first reason |
| RemoteVerdicts.WaitIsExact | scripts/local_closure_gate.py:378-389 | a wait is fruitless rounds of listing and sleeping and then the reply to one more listing, which shows a concluded run, fails, or comes at the deadline |
| RemoteVerdicts.DispatchIsExact | scripts/local_closure_gate.py:517-570 | a dispatch is verified, or failed, if and only if the worktree is clean, the probes pass, main is at the commit, the request is accepted and the listing that ends the wait shows such a run; otherwise it is unavailable for the first reason, the timeout exactly when no run concluded by the deadline |
| RemoteVerdicts.DispatchedEvidence | scripts/local_closure_gate.py:517-570 | a dispatch returns a run with its jobs if and only if they are evidence obtained by dispatching |
| ClosureGate.Preliminaries | scripts/local_closure_gate.py:1231-1252 | the blockers found before any command |
| ClosureGate.RunPlan | scripts/local_closure_gate.py:1253-1263 | one record per command, in order |
| ClosureGate.Aftermath | scripts/local_closure_gate.py:1265-1291 | the blockers found after the commands |
| ClosureGate.FailedRecords | scripts/local_closure_gate.py:1271-1271 | the labels of the commands that failed |
| ClosureGate.Judge | scripts/local_closure_gate.py:1229-1291 | a pass if and only if the run is real, every local condition and command holds and the remote did not fail; commands run only when nothing is in the way |
| ClosureGate.NoBlockers | scripts/local_closure_gate.py:1265-1291 | no blocker is left exactly in that case |
| ClosureGate.FailedInOrder | scripts/local_closure_gate.py:1271-1271 | failed commands are listed one by one in plan order |
| ClosureGate.OneFailed | scripts/local_closure_gate.py:1271-1271 | one command is listed by its label if and only if it failed |
| ClosureGate.BlockersAreThese | scripts/local_closure_gate.py:1229-1291 | a blocker is reported for every reason and for nothing else, commands counting only when they ran |
| ClosureGate.RunGate | scripts/local_closure_gate.py:1200-1291 | the remote part and then the local one |
| ClosureGate.GateIsExact | scripts/local_closure_gate.py:1200-1291 | the gate passes if and only if the run is real, the checkout closes, and there is no remote evidence against the commit, found by observing or dispatching |
| ClosureGate.RemoteEvidenceIsSupplemental | scripts/local_closure_gate.py:1200-1291 | remote evidence never turns a failure into a pass, and turns a pass into a failure only through a bound run that did not succeed |
| ClosureGate.GateDispatchesOnRequestOnly | scripts/local_closure_gate.py:1200-1225 | a gate dispatches exactly when asked to, in a real run, from a clean worktree at the head of main, and then once |
| ReleaseTree.BuildManifest | scripts/build_public_release_bundle.py:1352-1378 | the listed files in order with digest, size and mode, or a refusal exactly for an unsupported mode among them |
| ReleaseTree.Survey | scripts/build_public_release_bundle.py:1398-1409 | the regular files of a tree, or a refusal for a link or an unsupported mode |
| ReleaseTree.Covers | scripts/build_public_release_bundle.py:1410-1429 | every listed file is there with the listed digest, size and mode |
| ReleaseTree.ValidateTree | scripts/build_public_release_bundle.py:1381-1429 | accepts exactly the valid pairs of tree and document |
| ReleaseTree.ManifestIsExact | scripts/build_public_release_bundle.py:1381-1429 | a tree validates against the manifest of another if and only if it has no link, only supported modes, and the same path, digest, size and mode outside the excluded paths |
| ReleaseTree.AgreementIsEquality | scripts/build_public_release_bundle.py:1381-1429 | where the digest does not collide this is equality of bytes and modes |
| ReleaseTree.StillValidAfterwards | scripts/build_public_release_bundle.py:1717-1819 | whatever is written to the excluded paths, validity is only a matter of links and modes |
| ReleaseTree.BuiltTreeValidates | scripts/build_public_release_bundle.py:1717-1819 | with provenance and receipt written 0644, a built tree without links validates |
| ReleaseTree.VerdictIsExact | scripts/build_public_release_bundle.py:1381-1429 | a tree and a document go together if and only if format and exclusions are the literal ones, nothing is a link, every file is 0644 or 0755, and the entries are the published files, each once, with digest, size and mode |
| ReleaseTree.BuildableMeans | scripts/build_public_release_bundle.py:1352-1378 | a manifest can be built if and only if every published file is 0644 or 0755 |
| PackageLock.CollectRecords | scripts/build_public_release_bundle.py:248-272 | the records by name, or a refusal exactly for an invalid or repeated one |
| PackageLock.PackageRecords | scripts/build_public_release_bundle.py:235-285 | accepts exactly the valid locks |
| PackageLock.LinesAreDistinct | scripts/build_public_release_bundle.py:339-349 | no two packages share a checksum line |
| PackageMeaning.LockIsExact | scripts/build_public_release_bundle.py:235-285 | a lock is accepted if and only if its entries are well formed in their characters, share no name and no file, hold the eighteen required packages and at most 128, and the install block lists each package in order with its version; the lower bound on their number follows |
| PackageArchive.Normalize | scripts/build_public_release_bundle.py:300-318 | members by name, or a refusal exactly for an unsafe, repeated or oversized inventory |
| PackageArchive.CheckPackages | scripts/build_public_release_bundle.py:340-344 | every payload matches its record |
| PackageArchive.MatchesRest | scripts/build_public_release_bundle.py:337-351 | packages, checksum inventory and member names against the lock |
| PackageArchive.ValidateBundle | scripts/build_public_release_bundle.py:288-353 | returns the manifest of an accepted archive, and nothing only when no manifest would make it acceptable |
| PackageArchive.ManifestPinsContents | scripts/build_public_release_bundle.py:288-353 | two accepted archives with the same manifest bytes have the same names and, but for the two directories, the same contents |
| PackageMeaning.SumsReadBack | scripts/build_public_release_bundle.py:339-349 | the checksum text is one line per package in order and reads back as these lines, unless a file name holds a line feed |
| PackageMeaning.SumsAreEncodable | scripts/build_public_release_bundle.py:345-349 | for well-formed entries the checksum text can be encoded if and only if every file name is seven-bit text |
| PackageMeaning.SafeMeans | scripts/build_public_release_bundle.py:300-317 | a member is accepted if and only if it is a plain file or directory whose name, without the slashes that end a directory, is relative, never climbs, and first names the bundle |
| PackageMeaning.TotalConcat | scripts/build_public_release_bundle.py:314-317 | the expanded total of two lists of members is the sum of theirs |
| PackageMeaning.TotalOfOne | scripts/build_public_release_bundle.py:314-317 | the expanded total of one member is its size |
| PackageMeaning.AcceptanceIsExact | scripts/build_public_release_bundle.py:288-353 | an archive is accepted if and only if its sizes are within bounds, its members plain and of different names, its manifest the canonical text of a valid lock, every package there with its size and digest, the checksums exact, and nothing else there |
| PackageBuild.CheckPayloads | scripts/build_public_release_bundle.py:556-582 | payloads and metadata against the lock |
| PackageBuild.AddPackages | scripts/build_public_release_bundle.py:597-600 | the package members in order of file name |
| PackageBuild.BuildBundle | scripts/build_public_release_bundle.py:537-608 | succeeds exactly when inputs hold and the built archive is accepted, and then returns the members in order |
| PackageBuild.SelfCheckIsAboutSize | scripts/build_public_release_bundle.py:537-608 | with a valid lock, matching payloads and ASCII names the self-check can fail on size bounds alone |
| PackageMeaning.BuiltInOrder | scripts/build_public_release_bundle.py:583-600 | a built bundle holds two directories, the checksums, the manifest and then the packages by file name, under their literal names |
| PackageMeaning.BuildIsExact | scripts/build_public_release_bundle.py:537-608 | for a format that reads its canonical text back, a build succeeds if and only if the lock is valid, the payloads are exactly the locked ones with their size, digest and metadata, every file name is seven-bit text, and archive, total, manifest and checksums are within their bounds |
| SinkNames.CallsAny | scripts/probe_preserved_paths.py:78-84 | whether a function calls a member |
| SinkNames.Pass | scripts/probe_preserved_paths.py:74-84 | a pass only adds callers, and one that changes nothing has reached closure |
| SinkNames.FindSinks | scripts/probe_preserved_paths.py:62-85 | exactly the names with a chain of calls to a well-known sink, the least closed set, within one more pass than there are functions |
| SinkNames.ChainIsInside | scripts/probe_preserved_paths.py:62-85 | every closed set with the well-known names holds every name with a chain |
| SinkNames.OrderIsIrrelevant | scripts/probe_preserved_paths.py:71-75 | neither order nor repetition of functions matters |
| SinkNames.WellKnownNames | scripts/probe_preserved_paths.py:41-70 | without local functions the sinks are the nine well-known names |

## Left out

- Byte formats: JSON, YAML, tar, zip and UTF-8 are parsed values, member lists or parameters; that writing a lock canonically and reading it gives it back is a condition of `PackageBuild.SelfCheckIsAboutSize`.
- Processes, the network, Git, signatures and registries: their answers are parameters. Redirects, token requests and the query of the token URL are not part of the model.
- Regular expressions over scan fields, the style-sheet import finder and the Unicode letter tests are parameters, since their engines are not the repository's.
- Floating point: ages in hours are exact reals rounded as written, so the last bit of a double is not modelled.
- The order in which findings are listed in reports, the truncation of long lists, and the texts of error messages other than the gate's blockers.
- The lock size and archive size limits are modelled; limits on how much of other inputs is read are not.
- Which files of a tree the immutable set scopes: the scoped set is given with the tree.
- Policy documents beyond the overlap of selectors: field syntax, licences, review records and rule identifiers.
- Writing the exported tree to disk and the text redaction of gate logs: neither adds a property that spans operations.
- Other processes acting on the private root, and `os.close` or `os.fstat` failing on an open descriptor: release files are modelled without interference beyond what the identity checks would detect. `safe_path`, which only inspects, is not modelled.
- Interruption of evidence runs is modelled at the level of whole files and torn writes, not of the file system's own ordering of blocks.
- The release contract beyond the event, the transition and the version order: signatures, URIs, artifacts and nested predecessor documents would only add field checks.
- `render_wsl2_install_bootstrap.py`, the journeys, preflights and report builders: text generation and field checks without an unbounded property.
- An empty pinned tool version, which the collector reports before it judges: here it is a verdict with a refusal, since no accepted contract names an empty version.
- ReleasePrecedence.NumberedOrdersAgree: with BareLabelsAgree, the condition covers pre-releases of one identifier or of a label and a number; for longer ones, and with build metadata, it would only say both comparisons again.
- ReleaseChain.AssemblySucceeds: covers what depends on the version, the images, the qualification time and the predecessor's status; refusals over publication data, signatures and the nested predecessor document are outside, because those are field checks on documents that are not modelled.
- ReleaseChain.RederivationMatches: the claim holds the predecessor itself as its raw index, so the digest of that index is not a separate field.
- TreeSnapshot.SameSnapshotSameTree: speaks of the listing in the order and the characters given; the sort by path and the UTF-8 encoding are not modelled, because neither can identify two different listings.
- PackageLock.PackageRecords: the keys and types of the lock document are one condition of the input, because JSON documents are parsed values here.
- ReleaseTree.AgreementIsEquality: equality of bytes is stated for contents on which the digest does not collide, for the same reason.
- PackageArchive.ManifestPinsContents: says nothing about the two directory names, because the validator accepts a regular file of any content under either.
- SinkNames.FindSinks: works on function names and callee names, because the syntax tree of the test files is not modelled. The documentation speaks of functions that forward a parameter to a sink; the code takes every function that calls one, and so does the model.
