# Verified model of the haft core

A Dafny model of the parts of haft that carry its promises, with machine-checked proofs. `dafny verify dfyconfig.toml`
checks everything.

| files | what they model |
|---|---|
| Calculator, CalculatorShape, CalculatorCache, CalculatorRun, EvidenceScores | the weakest-link walk over holons, its shared visited set, its score cache, and what a piece of evidence scores |
| Scores, ScoreText, Comparison, Pareto, ParetoLimits, Elimination, NumberContests, ParetoFront, Coverage | comparing solution variants: scores and how they read, missing-data policies, dominance, constraint elimination, the front, explanation coverage |
| Claims, Evidence, Measurement, Measuring, TouchedClaims, UntouchedClaims, EvidenceStore | claims of a decision, evidence bound to them, and measuring: the forecast in memory against the commit, the status of the claims measured, and what a run leaves of the evidence of other claims |
| Drift, DriftRun, DriftExact, AutoBaseline | baselines, drift reports and silent re-baselining |
| Frontmatter, TimeText, FrontmatterRoundTrip, FileText | the artifact file format, printed and parsed |
| Lifecycle, LifecycleSafety | at most one live decision per problem, over whole runs |
| Hybrid, Fusion | the lazy start of the hybrid searcher under interleaving, rank fusion and the limited merge |
| Text, Lists, Sorting, Digits, Options | strings, cleaned lists, ordering, numbers and optional values the others use |

Where the source changes state step by step the model is a class or a method with a loop, proved against a function;
the laws are then proved about the function. The hybrid searcher is a state machine with one program counter per thread.

Where the code does not do what its comments or its purpose suggest, the model follows the code and a lemma shows the
input:

- A holon met a second time counts as 1.0, so the walk can miss the weaker of two paths and cache a score that is too
  high even when the root is right (`WeakestLink.DiamondCachesTooHigh`, `WeakestLink.DiamondScoresTooHigh`). For all
  penalties the exact condition is that no holon is reached by two paths
  (`WeakestLinkShape.ExactForAllWeightsIffSinglePaths`). With every edge at CL3 the root is always right, and the cached
  scores are right exactly if each holon entered adds everything it reaches itself
  (`WeakestLinkCache.CachesExactIffComplete`).
- Under `exclude`, and through the tie tolerance under every other policy, dominance can run in a circle and leave the
  front empty (`ParetoLimits.ExcludeCanEmptyTheFront`, `ParetoLimits.ToleranceIsNotTransitive`). Both have an exact
  condition on the cells: `exclude` is safe if no two cells are ordered, or none is missing and ties are transitive
  (`ParetoLimits.ExcludeFrontNonEmptyIff`); the other policies are safe if cells that tie with a third are never ordered
  against each other (`ParetoLimits.FrontNonEmptyIffTiesConsistent`).
- Waiving and reopening make a finished decision live again, and the conflict check does not look behind a problem
  reference that names a portfolio (`LifecycleSafety.WaiveRevives`, `LifecycleSafety.PortfolioAsProblemSlipsThrough`);
  `LifecycleSafety.StepSafeIff` says exactly which steps are safe.
- The time layout writes the wall clock of any zone with a literal Z and years past 9999 with five digits, so only whole
  UTC seconds of four-digit years survive a round trip (`TimeText.TimeSurvivesIff`).
- Header values are written as they are, so a newline in a title starts a line of its own and can change another field
  (`FrontmatterRoundTrip.TitleRewritesStatus`); `FrontmatterRoundTrip.HeaderRoundTripIff` says which headers come back.
- A header with a field behind its links loses the last of them (`FileText.FieldBehindLinksLosesOne`).
- Measuring some claims can cost another claim its evidence. Any measurement that shares a claim with the run is
  superseded as a whole, so one attached to two claims goes when either is measured
  (`UntouchedClaims.SharedMeasurementLosesStatus`); and a binding key joins identifier and observable by a NUL, so claims
  whose identifiers hold one can share a key (`UntouchedClaims.KeysCanClash`).
  `UntouchedClaims.UntouchedEvidenceKeptIff` says for every table when a claim keeps its evidence.
- A warm that fails overwrites indices already loaded (`Hybrid.FailingWarmLosesReadiness`); without warms readiness stays
  (`Hybrid.ReadyStaysReady`).
- A verdict spelled `superseded` with blanks around it is in force in memory but not once stored; this is harmless
  because such an item is written only when it binds no claim (`Measuring.ItemsAreFaithful`).

## Model

| member | source | states |
|---|---|---|
| WeakestLinkCalculator.Calculator.CalculateReliability | assurance/calculator.go:31-33 | where no holon is reached by two paths, the score answered is the least worth over all dependency paths: the self score at the end of the path less 0.1 for each row at CL2, 0.4 for each at CL1 and 0.9 for each at another level but CL3, and not below 0; so is the score left in the column for every holon reached, and the rest of the column stays. On any graph the answer and the column are those of the walk |
| WeakestLinkCalculator.Calculator.Visit | assurance/calculator.go:36-180 | one call on a shared visited set: its score, the visited set left and the cache column left are those of the walk; it terminates on any graph because each entered holon leaves fewer unvisited |
| WeakestLinkCalculator.Calculator.VisitDeps | assurance/calculator.go:144-162 | the loop over the dependency rows: the least effective score, the visited set and the cache column are those of walking the rows in order |
| WeakestLinkCalculator.DepRowsExact | assurance/calculator.go:110-142 | the dependency rows of a holon are its components and what it depends on, no others |
| WeakestLinkCalculator.Calculator.SelfScore | assurance/calculator.go:51-108 | the loop over evidence computes the self score |
| WeakestLinkCalculator.Calculator.SelfScoreIsWeakestEvidence | assurance/calculator.go:51-108 | the self score is attained by one piece of evidence and exceeds none; it lies in [0,1] |
| WeakestLink.TollByLevel | assurance/calculator.go:182-193 | the cost of a path in numbers, by how many of its rows are at each congruence level |
| EvidenceScores.LevelOfKind | assurance/calculator.go:200-218 | a piece of evidence counts at the level stored, or else at that of its kind |
| EvidenceScores.ScoreByLevel | internal/reff/reff.go:32-43 | the base less 0, 0.1, 0.4 or 0.9 by level, not below 0; rounding changes nothing |
| EvidenceScores.ScoreOfWords | internal/reff/reff.go:98-109 | supporting words score 1, weakening and unknown ones a half, refuting ones nothing, before the penalty; expired evidence scores 0.1 |
| EvidenceScores.ScoreOfMeasures | internal/reff/reff.go:113-135 | explicit measures score 0.8, partial ones 0.5, attached evidence 0.7 or, refuting, nothing |
| WeakestLinkCalculator.Calculator.ViewIsValid | assurance/calculator.go:110-142 | the tables give a graph with self scores in [0,1] and no repeated dependency row |
| WeakestLink.EachReachableHolonOnce | assurance/calculator.go:36-46 | cycles and diamonds included, the walk scores exactly the holons reachable from the root, each once |
| WeakestLink.ScoresInRange | assurance/calculator.go:144-180 | every score answered and every score cached lies in [0,1] |
| WeakestLink.ExactWithoutPenalties | assurance/calculator.go:144-180 | when every edge is at CL3, on any graph, the root scores the least self score among all holons reachable from it |
| WeakestLink.NeverBelowPaths | assurance/calculator.go:144-180 | on any graph and for any penalties the score is never below what every dependency path allows |
| WeakestLink.ExactOnSinglePaths | assurance/calculator.go:144-180 | where no holon is reached by two paths, the score and every cached score are the least value over all dependency paths |
| WeakestLink.DiamondCachesTooHigh | assurance/calculator.go:38-46 | a diamond at CL3 caches 1.0 for its second parent although its weakest link is 0.5 |
| WeakestLink.DiamondScoresTooHigh | assurance/calculator.go:150-158 | a diamond whose second leg is at CL1 scores 0.5 although one path is worth 0.1 |
| WeakestLinkShape.ExactForAllWeightsIffSinglePaths | assurance/calculator.go:36-180 | a graph shape, several dependency rows for one target included, is scored exactly under all penalties and self scores if and only if no holon is reached by two paths; the same condition makes every cached score exact under all of them |
| WeakestLinkShape.RevisitHidesPath | assurance/calculator.go:38-46 | every edge that meets an already visited holon, a second row to the same target included, can hide a weak path |
| WeakestLinkCache.CachesExactIffComplete | assurance/calculator.go:36-180 | with every edge at CL3, all cached scores are weakest links for all self scores if and only if everything reachable from each holon entered is added by the walk of that holon itself |
| WeakestLinkCache.DiamondIsIncomplete | assurance/calculator.go:38-46 | the second parent of a diamond does not meet that condition |
| WeakestLinkShape.NoRevisitsSinglePaths | assurance/calculator.go:38-46 | a walk that meets no holon twice shows that all paths are single |
| Scores.ParseIgnoresCase | internal/artifact/solution.go:2383-2413 | the numeric reading of a score does not depend on letter case |
| Scores.ZeroReadsBackAsZero | internal/artifact/solution.go:2487-2516 | a rendered zero that reads back on the scale it came from is zero there |
| ScoreText.ScoreTextReads | internal/artifact/solution.go:2383-2409 | a text of prefix, sign, digits with commas, fraction, magnitude letter and rest reads as the number its parts make, in the unit prefix and rest make; a line break after the number makes it no score |
| ScoreText.DecimalReads | internal/artifact/solution.go:2383-2409 | every whole number written in decimal digits reads as itself |
| ScoreText.UnitOfWords | internal/artifact/solution.go:2411-2413 | a unit is its words in small letters with one blank between them, whatever white space is around them |
| ScoreText.OrdinalScale | internal/artifact/solution.go:2498-2516 | which word stands on which rung of the scale, from none to very high |
| Comparison.SameKeySameScore | internal/artifact/solution.go:2316-2360 | the equal-text shortcut is sound: scores with the same key read alike |
| Comparison.CellIsFound | internal/artifact/solution.go:1359-1374 | a cell is the entry of that very name, else one whose name folds to it, else empty |
| Comparison.ComparedByWorth | internal/artifact/solution.go:2316-2381 | whatever shortcut or policy applies, a comparable pair of cells is ordered by the worth of each cell alone |
| Comparison.MirroredValues | internal/artifact/solution.go:2316-2381 | comparing two cells the other way round flips the sign and nothing else |
| Comparison.ComparePair | internal/artifact/solution.go:2265-2314 | the loop over dimensions, with its early exits, decides the relation given by the verdicts of all dimensions |
| Comparison.DominanceByDimension | internal/artifact/solution.go:2265-2314 | one variant dominates another exactly if no dimension is unresolved or worse and one is better |
| Comparison.MirroredRelation | internal/artifact/solution.go:2265-2314 | left is dominated in one order of arguments exactly if it is in the other |
| NumberContests.NumbersCompare | internal/artifact/solution.go:2316-2381 | two numbers in one unit: the greater is better under higher_better, worse under lower_better, and numbers less than 1e-9 apart tie |
| NumberContests.MissingAgainstNumber | internal/artifact/solution.go:2331-2360 | a missing cell against a number: left out under exclude, zero under zero, undecided under any other policy |
| NumberContests.OtherCellsCompare | internal/artifact/solution.go:2316-2460 | plain text, two units, or a word and a number decide nothing; two words compare by their rungs; equal texts tie |
| NumberContests.MissingCellsCompare | internal/artifact/solution.go:2316-2345 | two missing cells tie if they are missing alike, and else are left out or undecided |
| NumberContests.DominanceOfNumbers | internal/artifact/solution.go:2265-2314 | over whole numbers one variant dominates another exactly if no dimension prefers the other number and some prefers this one |
| Pareto.BeatingIsHigher | internal/artifact/solution.go:2316-2360 | under every policy but `exclude`, where on no dimension two cells that tie with a third are ordered against each other, every dominance step strictly raises one number per variant |
| Pareto.DominanceIsAcyclic | internal/artifact/solution.go:2037-2062 | under the same condition no chain of dominance steps of any length returns to its start |
| Pareto.FrontReachedByClimbing | internal/artifact/solution.go:2037-2076 | under the same condition the front of a non-empty field is not empty, and every variant off it is dominated through a chain that ends on it |
| Pareto.SeparatedIsConsistent | internal/artifact/solution.go:2373-2381 | the condition holds where values closer than the tolerance are equal |
| Pareto.AbstainFrontDominates | internal/artifact/solution.go:2037-2076 | under `explicit_abstain`, when ties are transitive, dominance is a strict partial order and every variant off the front is directly dominated by a front member |
| ParetoLimits.FrontNonEmptyIffTiesConsistent | internal/artifact/solution.go:2331-2381 | for a set of cell texts and any policy but `exclude`, every contest over them has a non-empty front if and only if cells that tie with a third are never ordered against each other |
| ParetoLimits.FrontNonEmptyIffTiesTransitive | internal/artifact/solution.go:2373-2381 | under `explicit_abstain` that condition is transitivity of ties |
| ParetoLimits.ExcludeFrontNonEmptyIff | internal/artifact/solution.go:2331-2345 | under `exclude` every contest over a set of cell texts has a non-empty front if and only if no two of them are ordered, or none is missing and ties are transitive |
| ParetoLimits.ToleranceIsNotTransitive | internal/artifact/solution.go:2373-2381 | the 1e-9 tolerance makes three concrete scores tie intransitively, so a front can be empty |
| ParetoLimits.ExcludeCanEmptyTheFront | internal/artifact/solution.go:2331-2345 | under `exclude` three variants can dominate each other in a circle and leave the front empty |
| ParetoLimits.RotationEmptiesFront | internal/artifact/solution.go:2037-2076 | any three values of which one beats another and no other pair gets in the way give an empty front and a dominance cycle |
| Elimination.ExplicitPass | internal/artifact/solution.go:2141-2153 | the first pass removes exactly the variants with a failing label on some constraint, each for a reason that holds |
| Elimination.LabelledIff | internal/artifact/solution.go:2102-2118 | the failing labels are fail, violated, no and false, in any letter case and between blanks, on dimensions with the constraint role |
| Elimination.LabelEliminates | internal/artifact/solution.go:2141-2153 | a failing label eliminates its variant whatever the others scored |
| NumberContests.LesserIsRemoved | internal/artifact/solution.go:2155-2207 | of two variants with whole numbers on one constraint exactly the less preferred one is removed |
| Elimination.JudgeCandidate | internal/artifact/solution.go:2168-2205 | the counting loop says whether a candidate is strictly worse than all its comparable rivals still in, and gives a reason that holds |
| Elimination.RelativePass | internal/artifact/solution.go:2155-2207 | the second pass removes exactly what the sweep over constraints and candidates in order removes |
| Elimination.EliminateConstraintViolations | internal/artifact/solution.go:2120-2228 | survivors keep their order, are those not removed, and every removal is justified by a label or by a better rival |
| Elimination.AllRemovedIffAllLabelled | internal/artifact/solution.go:2120-2228 | for any number of constraints and any order, everyone is removed exactly if everyone carries an explicit failing label: the second pass never removes the last one |
| Elimination.SingleConstraintRemovesForSurvivor | internal/artifact/solution.go:2155-2207 | with one constraint, every variant the second pass removes is strictly worse than a final survivor |
| ParetoFront.FallbackIffAllLabelled | internal/artifact/solution.go:2028-2035 | the everyone-eliminated fallback fires exactly when every variant is labelled, and dominance always has a field |
| ParetoFront.CompareAll | internal/artifact/solution.go:2037-2062 | comparing each pair once records exactly who dominates whom, in both directions |
| ParetoFront.ComputeParetoFront | internal/artifact/solution.go:2013-2092 | the front is the survivors no survivor dominates; the indecisive dimensions are those no pair can be compared on |
| NumberContests.FrontOfNumbers | internal/artifact/solution.go:2037-2076 | on one higher_better dimension of whole numbers the front holds exactly the variants with the greatest number |
| Coverage.ValidateCoverage | internal/artifact/solution.go:1242-1339 | accepted exactly if no variant has two notes and every expected one has a note |
| Coverage.MergeCounts | internal/artifact/solution.go:393-415 | merging the eliminated variants adds one dominated entry for each not yet there, and changes no other count |
| Coverage.ChooseFront | internal/artifact/solution.go:665-692 | the front recorded is the computed one, unless no dimension decides any pair and the caller gives a front, which is then honoured |
| Coverage.CompareSolutions | internal/artifact/solution.go:327-437 | stored exactly if the notes are well formed and cover the recorded front; notes speak of compared variants and say something, merged ones too, and the front of the caller names compared variants; a stored comparison gives every front member exactly one trade-off note and every other variant exactly one dominated entry, also when the front of the caller is honoured; the merge adds one dominated entry for each variant the constraints eliminated that had none, front member or not, and no other |
| Coverage.EliminatedFrontMember | internal/artifact/solution.go:2028-2035 | a front member can be listed as eliminated only where the front of the caller is honoured or every variant carries a failing label |
| Claims.NormalizeDecisionClaims | internal/artifact/claim_status.go:108-138 | the loop over claims with its set of used identifiers computes the normal form |
| Claims.UniqueClaimId | internal/artifact/claim_status.go:140-157 | the search for a free generated identifier terminates and returns one not in use; a free candidate is kept |
| Claims.NormalizeIsNormal | internal/artifact/claim_status.go:108-157 | normalised claims are clean, not empty, and have distinct non-blank identifiers |
| Claims.NormalizeTwice | internal/artifact/claim_status.go:108-157 | normalising twice is normalising once |
| Claims.NormalizeKeepsOrder | internal/artifact/claim_status.go:108-138 | claims keep their order and content, and the first holder of an identifier keeps it |
| Claims.NormalizeKeepsEach | internal/artifact/claim_status.go:108-138 | exactly the claims with some text are kept, in order, each with its texts trimmed, its status one of five words, and the rest as given |
| Claims.PredictionsKeepEach | internal/artifact/claim_status.go:84-106 | where no claim is stored, the claims are read from the predictions with some text, in order and field by field |
| Claims.FirstIds | internal/artifact/claim_status.go:187-189 | generated identifiers are claim-001, claim-012, claim-1000 |
| Claims.MarshalRoundTrip | internal/artifact/types.go:357-386 | storing and reading back decision fields gives the normalised claims and, field by field, their predictions; storing that again stores the same |
| Evidence.BuildAliasIndex | internal/artifact/claim_status.go:742-766 | an alias stands for a claim exactly if no other claim answers to it |
| Evidence.AliasTexts | internal/artifact/claim_status.go:821-847 | the texts a claim answers to, for each combination of claim, observable and threshold given |
| Evidence.OwnerIff | internal/artifact/claim_status.go:742-766 | a key stands for a claim exactly if that claim answers to it and no other does |
| Evidence.ResolvesIff | internal/artifact/claim_status.go:790-799 | a criterion stands for a claim exactly if the claim alone answers to the first of its keys that one claim alone answers to |
| Evidence.BindsIff | internal/artifact/claim_status.go:191-242 | evidence that names claims is bound to those, unless one is unknown; other evidence to the claims its scope entries stand for |
| Evidence.UnknownIff | internal/artifact/claim_status.go:191-242 | references are refused exactly if one that is not blank names no claim |
| Evidence.GroupByClaim | internal/artifact/claim_status.go:658-685 | each claim gets, in order, the active items bound to it and no others |
| Evidence.StatusFromItems | internal/artifact/claim_status.go:700-740 | the status depends only on which classes of verdict occur |
| TouchedClaims.StatusByWords | internal/artifact/claim_status.go:700-740 | the status by the verdict words in force, all six statuses in words |
| Evidence.RebuildClaims | internal/artifact/claim_status.go:588-606 | each claim gets the status of the active evidence bound to it and is otherwise unchanged |
| Evidence.RebuildKeepsLabels | internal/artifact/claim_status.go:588-606 | rebuilding statuses keeps claims normal and what bindings depend on unchanged |
| Evidence.SplitAtNul | internal/artifact/store.go:1026-1027 | a binding key names one claim when identifiers hold no NUL |
| Measurement.CanonicalMeansTheSame | internal/artifact/store.go:946-962 | storing an item changes neither its bindings nor the class of its verdict |
| Measurement.OlderWords | internal/artifact/store.go:946-962 | the older words of a measurement are stored as supports, weakens and refutes; any other verdict is trimmed |
| Measurement.OldRowAfter | internal/artifact/store.go:1093-1120 | after the commit a stored row is superseded exactly if its own reading overlaps the incoming items, else untouched |
| Measurement.ForecastAgrees | internal/artifact/decision.go:1765-1814 | the claim statuses predicted in memory equal those the committed table gives, despite order and verdict canonicalisation |
| Measuring.ClaimItemBindsItsClaim | internal/artifact/claim_status.go:608-656 | the item written for a claim binds that claim and no other |
| Measuring.ItemsAreFaithful | internal/artifact/decision.go:1816-1862 | what a run writes is in force once stored whenever it binds a claim |
| Measuring.ItemsInFull | internal/artifact/decision.go:1816-1862 | each item written, field by field: number, verdict word, congruence level by baseline, its claim, and the scope entries about it or about no claim |
| Measuring.OneItemInFull | internal/artifact/decision.go:1821-1823 | a run that touches no claim writes one item as the caller gave it |
| Measuring.TouchedClaimHasOneRow | internal/artifact/decision.go:1816-1862 | after a run exactly one measurement in force is bound to each claim the run touched |
| TouchedClaims.TouchedEvidence | internal/artifact/decision.go:1765-1814 | after a run the evidence of a touched claim is what the run found and its evidence other than measurements |
| TouchedClaims.MeasuredStatus | internal/artifact/claim_status.go:526-542 | a touched claim with no other evidence is supported if its criteria were met, refuted if not, weakened if both |
| TouchedClaims.UntouchedRunSupersedes | internal/artifact/store.go:1053-1090 | a run that touches no claim supersedes exactly the measurements in force that are bound to none |
| Measuring.SingleBindingsKept | internal/artifact/store.go:1053-1120 | every run keeps that a measurement in force binds at most one claim |
| UntouchedClaims.UntouchedEvidence | internal/artifact/store.go:1093-1120 | for any table, the evidence in force of an untouched claim after a run is, in order, what was there before without what the run supersedes |
| UntouchedClaims.SupersededIffCaught | internal/artifact/store.go:1053-1090 | evidence in force of a claim is superseded exactly if it is a measurement that binds some claim with the binding key of a touched one |
| UntouchedClaims.UntouchedEvidenceKeptIff | internal/artifact/store.go:1053-1120 | for any table, an untouched claim keeps its evidence in force exactly if no measurement bound to it binds a claim with the binding key of a touched one |
| UntouchedClaims.SharedMeasurementLosesStatus | internal/artifact/store.go:1053-1090 | a measurement attached to two claims is superseded when one of them is measured, and the other falls from supported to unverified |
| UntouchedClaims.AlwaysKeepsStatusIff | internal/artifact/decision.go:1765-1814 | a run keeps the status of an untouched claim for every table if and only if it touches no claim at all |
| UntouchedClaims.UntouchedKeepsStatus | internal/artifact/decision.go:1765-1814 | while every measurement in force binds at most one claim, an untouched claim whose binding key no touched claim has keeps its status |
| UntouchedClaims.UntouchedKeepsStatusIff | internal/artifact/store.go:1053-1090 | for all tables of that kind together, that condition on the binding key is exact |
| UntouchedClaims.PlainIdsKeepApart | internal/artifact/store.go:1026-1027 | without a NUL in identifiers no touched claim has the key of an untouched one |
| UntouchedClaims.KeysCanClash | internal/artifact/store.go:1026-1027 | two claims with distinct identifiers, one of them with a NUL, share a binding key |
| EvidenceStores.MeasurementItems | internal/artifact/decision.go:1816-1862 | matching criteria and numbering the items computes exactly one item per touched claim, or the one item of the run |
| EvidenceStores.ForecastEvidence | internal/artifact/decision.go:1765-1814 | the loop over stored evidence computes the forecast |
| EvidenceStores.IdsToSupersede | internal/artifact/store.go:1053-1090 | the rows to supersede are the measurements in force that overlap some incoming item |
| EvidenceStores.EvidenceStore.SupersedeByIds | internal/artifact/store.go:985-996 | exactly the rows named are marked superseded |
| EvidenceStores.EvidenceStore.AddItem | internal/artifact/store.go:788-867 | an item is appended in canonical form unless it supports at CL0 or its identifier is taken; then nothing changes |
| EvidenceStores.RefusedWords | internal/artifact/store.go:964-970 | at CL0 supporting evidence is refused, in the older word too, and no other |
| EvidenceStores.EvidenceStore.CommitMeasurement | internal/artifact/store.go:1092-1120 | all or nothing: the decision, the superseded rows and the new rows, or the state before; accepted exactly if the decision exists and all items can be inserted |
| EvidenceStores.EvidenceStore.Measure | internal/artifact/decision.go:1609-1763 | after a successful run the stored claims equal those rebuilt from the rows the store now holds, and a touched claim with no evidence other than measurements is supported, refuted or weakened as its criteria were met, not met or both; a refused run changes nothing |
| Drift.ListScope | internal/artifact/decision.go:1447-1493 | walking a scope in any order and sorting gives the ascending list of the visible files |
| Drift.BuildManifests | internal/artifact/decision.go:1351-1380 | one manifest per governed directory, ascending, each with the listing of its directory |
| DriftRun.GovernanceStore.Baseline | internal/artifact/decision.go:1020-1121 | hashes what can be hashed, drops the rest, stores manifests for module-mode decisions alone; refuses unknown or unfit artifacts and empty or repeating lists without a change |
| DriftRun.BaselineKeeps | internal/artifact/decision.go:1097-1112 | a baseline changes files and manifests alone; a note keeps its manifests, a decision outside module mode gets none |
| DriftRun.DriftPass.ListScopeCached | internal/artifact/decision.go:1430-1445 | the shared cache answers what a fresh listing would |
| DriftRun.DriftPass.DetectAddedFiles | internal/artifact/decision.go:1382-1426 | the accumulation over manifests finds the new files of the manifest order, each once, ascending |
| DriftRun.DriftPass.CheckRecord | internal/artifact/decision.go:1150-1243 | the report of one decision and whether it is made |
| DriftRun.CheckDrift | internal/artifact/decision.go:1124-1250 | the reports are those of each decision taken alone, in order: the cache and the other decisions do not matter |
| DriftExact.FoundFromBaseline | internal/artifact/decision.go:1382-1426 | with manifests of an earlier tree, whatever order and overlap they have, the files found are those new since then and visible in some scope |
| DriftExact.DriftAfterBaseline | internal/artifact/decision.go:1020-1249 | after a baseline the report on any later tree lists a path as modified, vanished or added exactly if it is |
| DriftExact.NewFileListedIff | internal/artifact/decision.go:1382-1426 | a new file is listed exactly if the decision is in module mode, by name or by default, and the directory of some governed file shows it |
| DriftExact.ModifiedEntry | internal/artifact/decision.go:1272-1325 | the entry of a modified file carries all its symbol changes if one is no addition, else none |
| DriftExact.ListedTimes | internal/artifact/decision.go:1020-1249 | a new file is listed once and a governed one that changed or vanished as often as the decision names it |
| DriftExact.ListedOnce | internal/artifact/decision.go:1020-1249 | for distinct paths the report lists each path it should list once, and no other |
| DriftExact.ReportedIffDrifted | internal/artifact/decision.go:1236-1243 | an active baselined decision is reported exactly if something changed, vanished or was added |
| DriftExact.UnchangedTreeIsQuiet | internal/artifact/decision.go:1236-1243 | an unchanged tree gives no report |
| AutoBaseline.VerdictOf | internal/artifact/types.go:782-816 | the verdict is governed-modified exactly if some entry is gone or shows a symbol change other than an addition, additive-only exactly if all entries are additive and there is one |
| AutoBaseline.ClassifyOne | internal/artifact/autobaseline.go:72-80 | no baseline goes to review, whatever the verdict; else the verdict decides |
| AutoBaseline.ClassifyAll | internal/artifact/autobaseline.go:63-69 | one disposition per report, in order, each with the action of its own report |
| AutoBaseline.SilentIffOnlyAdditions | internal/artifact/autobaseline.go:72-80 | a report made by the check is resolved silently exactly if it has a baseline and lists additions alone |
| AutoBaseline.SilentAfterBaseline | internal/artifact/decision.go:1272-1325 | a baselined decision is re-baselined silently exactly if no governed file changed or vanished and some file is new in a governed directory |
| AutoBaseline.ActionAfterBaseline | internal/artifact/autobaseline.go:72-80 | by the two trees and the symbol changes: staged exactly if a governed file is gone or changed by more than additions, silent as above, surfaced for review in all other cases |
| AutoBaseline.PartitionDispositions | internal/artifact/autobaseline.go:84-95 | three lists, each with the dispositions of its action in their order |
| AutoBaseline.PartitionLosesNothing | internal/artifact/autobaseline.go:84-95 | a disposition is in the list of its action as often as it was given and in no other |
| AutoBaseline.BucketKeepsOrder | internal/artifact/autobaseline.go:84-95 | the entries of each list stand at ascending positions of the list given |
| Frontmatter.RenderArtifactFile | internal/artifact/writer.go:41-77 | the builder writes the lines of the header, the links section and the body closed by a newline |
| Frontmatter.SplitFrontmatterText | internal/artifact/parser.go:25-67 | the scan for the closing line splits header and body |
| Frontmatter.ParseFrontmatterLines | internal/artifact/parser.go:69-170 | the line loop with its links sub-state computes the fold of one step per line |
| Frontmatter.ParseFile | internal/artifact/parser.go:11-24 | parsing is splitting and then reading the header |
| FrontmatterRoundTrip.ParseOfRender | internal/artifact/parser.go:11-67 | for every artifact, parsing its rendering reads the header lines as they stand in the text, up to the first that looks like the closing line; errors included |
| FrontmatterRoundTrip.ParseOfSingleLines | internal/artifact/parser.go:11-184 | with no newline in a field, that is each field trimmed, unquoted and checked against its words, errors included |
| FrontmatterRoundTrip.ValueSurvivesIff | internal/artifact/parser.go:172-184 | a value survives a line exactly if it is trimmed and not wrapped in matching quotes |
| FileText.QuotedReads | internal/artifact/parser.go:172-184 | a value in quotes of either kind reads as what is between them |
| FileText.RenderedText | internal/artifact/writer.go:41-77 | the whole text of an artifact file, line by line |
| FileText.WellFormedInWords | internal/artifact/parser.go:112-157 | the headers that come back, with the kinds, statuses and modes spelled out |
| FileText.ShortHeader | internal/artifact/parser.go:69-170 | a header of identifier and kind alone reads as version 1, active, without times, links and texts |
| FileText.LooseOpening | internal/artifact/parser.go:25-37 | blanks and line breaks before the opening line, blanks behind its dashes and a carriage return make no difference |
| FileText.FieldBehindLinksLosesOne | internal/artifact/parser.go:85-104 | a field behind the links costs the header its last link |
| FileText.IndentedRef | internal/artifact/parser.go:95-99 | a reference on a line of its own belongs to the link begun, if it is indented by more than two |
| FileText.StampReads | internal/artifact/parser.go:141-152 | a stamp reads as the time it says exactly if the calendar has that date and the clock that time |
| FileText.StampIsWritten | internal/artifact/writer.go:61-62 | a time of a four-digit year is written as the stamp of its own clock |
| FileText.SignedNumbers | internal/artifact/parser.go:122-125 | a version may carry a sign; what is no whole number is not read |
| TimeText.TimeSurvivesIff | internal/artifact/writer.go:61-62 | a time survives exactly if its year has four digits, it is shown in UTC and it holds whole seconds: the layout writes a literal Z and parsing reads four digits |
| FrontmatterRoundTrip.ParsedIsSingle | internal/artifact/parser.go:69-170 | whatever the text, no parsed field holds a newline |
| FrontmatterRoundTrip.HeaderRoundTripIff | internal/artifact/writer.go:41-77 | for every artifact the parsed header equals the rendered one, every link in order, exactly if the header is well formed (known words, trimmed and unquoted values, whole UTC seconds of four-digit years) and no field holds a newline |
| FrontmatterRoundTrip.TitleRewritesStatus | internal/artifact/writer.go:50-67 | a title that ends in a newline and a status line changes the status of what is parsed |
| FrontmatterRoundTrip.BodyRoundTripIff | internal/artifact/parser.go:57-64 | for every artifact that parses, the body comes back up to one final newline exactly if it does not start with a line break and no line of the header looks like the closing line |
| FrontmatterRoundTrip.RoundTripIff | internal/artifact/writer.go:41-77 | parsing what was rendered gives back the whole artifact, its body closed by one newline, exactly if the header is well formed and of single lines and the body does not start with a line break |
| FrontmatterRoundTrip.RenderTwice | internal/artifact/writer.go:41-77 | rendering what was parsed from a well-formed artifact gives the same text |
| Lifecycle.ResolveDecisionRefs | internal/artifact/decision.go:749-782 | the problems a stored decision resolves, through its portfolio too |
| Lifecycle.ResolveIncomingRefs | internal/artifact/decision.go:783-808 | the problems the conflict check takes an incoming decision to resolve |
| Lifecycle.FindConflict | internal/artifact/decision.go:810-852 | a conflict is found exactly if some live decision resolves one of the incoming problems |
| Lifecycle.MergedRefsAreNamed | internal/artifact/decision.go:698-715 | the merged references are exactly the problems named, alone or in the list, without blanks |
| Lifecycle.ConflictIffInTheWay | internal/artifact/decision.go:810-852 | the check refuses exactly if a decision in force resolves a problem named or behind the portfolio |
| Lifecycle.LinkStandsFor | internal/artifact/decision.go:749-782 | a link named like a problem stands for it; any other for the problems of the portfolio it names, if it names one |
| Lifecycle.ArtifactStore.DecideOn | internal/artifact/decision.go:903-983 | a decision is refused exactly if it is not accepted or a decision in force resolves a problem that the input names or that stands behind its portfolio; what is stored lists exactly the problems named and links them and the portfolio; a refused one changes nothing |
| Lifecycle.ArtifactStore.ExploreFor | internal/artifact/solution.go:257-324 | stores a portfolio for an existing problem or for none |
| Lifecycle.ArtifactStore.WaiveArtifact | internal/artifact/refresh.go:604-626 | the status becomes active, whatever it was |
| Lifecycle.ArtifactStore.ReopenDecision | internal/artifact/refresh.go:684-749 | a decision becomes refresh_due, whatever it was, and a new problem is framed |
| Lifecycle.ArtifactStore.SupersedeArtifact | internal/artifact/refresh.go:760-781 | the status becomes superseded |
| Lifecycle.ArtifactStore.DeprecateArtifact | internal/artifact/refresh.go:790-805 | the status becomes deprecated |
| LifecycleSafety.RefsAgreeIff | internal/artifact/decision.go:749-808 | the references checked equal those stored exactly if the portfolio reference is not named like an unlisted problem and no listed problem is a portfolio that brings in others |
| LifecycleSafety.StepSafeIff | internal/artifact/decision.go:810-852 | one step keeps that no problem has two live decisions exactly if it makes no decision live beside a live one that shares a problem |
| LifecycleSafety.RunSafeIff | internal/artifact/decision.go:903-983 | over a whole run no problem ever has two live decisions if and only if every step is careful: no decision becomes live beside a live one that shares a problem |
| LifecycleSafety.RunsAreSafe | internal/artifact/decision.go:903-983 | in particular in every run whose decisions name plain problems and whose waives and reopens meet no finished decision |
| LifecycleSafety.NamedProblemsAreApart | internal/artifact/decision.go:903-983 | in every guarded run no two decisions given the same problem by name are in force at once |
| LifecycleSafety.DecisionStatusBy | internal/artifact/refresh.go:604-805 | the status of a decision changes only when it is superseded, deprecated, reopened or waived, and to what |
| LifecycleSafety.WaiveRevives | internal/artifact/refresh.go:616-617 | a run in which waiving a superseded decision makes two decisions live for one problem |
| LifecycleSafety.PortfolioAsProblemSlipsThrough | internal/artifact/decision.go:783-808 | a run in which a problem reference that names a portfolio passes the conflict check |
| Hybrid.AccountedKept | internal/cli/fpf_hybrid.go:329-372 | every step of every thread keeps that each started embedder is cached, closed or held by one thread, and only one of these |
| Hybrid.ClaimedKept | internal/cli/fpf_hybrid.go:259-293 | every step keeps that the claim to build stands exactly while one thread works on it |
| Hybrid.NoEmbedderLeaks | internal/cli/fpf_hybrid.go:329-372 | in every interleaving, once no resolve is in flight each started embedder is the cached one or closed, never both |
| Hybrid.ReadyHasEmbedder | internal/cli/fpf_hybrid.go:295-303 | a ready snapshot carries the cached embedder, which is started and never closed afterwards |
| Hybrid.BuiltAtMostOnce | internal/cli/fpf_hybrid.go:259-293 | searches and prewarms build the index at most once in every interleaving, with warms between them too |
| Hybrid.UnavailableForGood | internal/cli/fpf_hybrid.go:329-372 | in every interleaving, once an embedder could not be started no thread comes to start one and no build begins |
| Hybrid.SnapsReadyIff | internal/cli/fpf_hybrid.go:295-310 | a snapshot is ready exactly if one of the two indices is not empty |
| Hybrid.ReadyStaysReady | internal/cli/fpf_hybrid.go:259-303 | in every interleaving without warms, once a snapshot is ready every later one is, over the same indices and embedder |
| Hybrid.FailingWarmLosesReadiness | internal/cli/fpf_hybrid.go:118-128 | a run in which a warm that loads nothing overwrites the indices, so that a snapshot after a ready one is degraded |
| Fusion.FuseRRF | internal/cli/fpf_hybrid.go:441-459 | whatever order the score map is read in, the result holds every id of the lists once, by falling score and then by id |
| Fusion.ScoreByRank | internal/cli/fpf_hybrid.go:441-459 | a list without repetitions adds one over k and the rank to the score of each of its ids |
| Sorting.BeforeIff | internal/cli/fpf_hybrid.go:452-458 | ties are ordered by the first character that differs, a string before what continues it |
| Fusion.FusionIsUnique | internal/cli/fpf_hybrid.go:441-459 | there is only one such result |
| Fusion.FusionRespectsLists | internal/cli/fpf_hybrid.go:441-459 | for duplicate-free lists, an id that precedes another in every list holding the other precedes it in the result |
| Fusion.MergeResults | internal/cli/fpf_hybrid.go:220-257 | the four loops with their early returns give the first `limit` hits of different keys of patterns, cards, fusion and all deterministic hits |
| Fusion.FirstOfItsKey | internal/cli/fpf_hybrid.go:220-234 | each hit answered is the first of its key among the candidates, and the order is kept |
| Fusion.DeterministicFloor | internal/cli/fpf_hybrid.go:251-256 | a deterministic hit is missing only if the limit was reached or a hit of the same pattern and heading is there |

## Left out

Inputs and abstractions:

- Whether a piece of evidence has expired is a boolean; reading its date is left out, and so is the cap by causal basis,
  which the calculator does not use.
- The realizability of a claim is one of its words; reading it from free text is left out.
- The report of the calculator keeps only the scores; factors, formality, decay text and the name of the weakest link are
  presentation.
- Letter case is folded for ASCII only, and strings are sequences of characters, not of bytes.
- Floating point is modelled by reals, and integers are unbounded except where a version number is read back.
- SQL, the JSON text, files on disk, logging, warnings and database errors other than commit or rollback.
- Dimension roles and polarities are inputs; guessing a polarity from a name is left out.
- Other rejections of a compare input (selected variant, parity plan, expiry, missing dimensions, incomparable pairs).
- How a criterion or an alias is normalised into lookup keys is an input, as are the scope candidates of a measurement.
- Fallback scope labels of measurement items: they matter only for items that bind a claim by reference anyway.
- Nothing runs between the forecast of a measurement and its commit.
- Paths are given in clean, slash-separated form; ignore rules are a fixed visibility predicate, so a changed ignore file
  is not modelled; git statistics and symbol extraction are inputs.
- Times are read in full for the plain UTC form that the layout writes; other forms that begin with a year, such as those
  with a zone offset or a fraction, are read by an input function.
- Generated identifiers are new and carry the prefix of their kind.
- Candidate pools, similarity search and hydrating sections: ranked lists are inputs.
- The agent side of haft is not modelled: the agent cycle, its guardrails and autonomy checks, permission and loop
  detection, and context compaction.

Contracts weaker than the code could promise:

- Comparison.SameKeySameScore: letters beyond ASCII are not folded. The source folds the Kelvin sign (U+212A) to k, so 5
  followed by that sign has the key of 5k although it reads as 5 in units of k and not as 5000; there the equal-text
  shortcut is unsound, and what rests on it (the orders and fronts of Pareto and ParetoLimits) holds for other cells.
- Scores.ParseIgnoresCase: the same sign is the one letter whose folding changes the reading of a number.
- UntouchedClaims.UntouchedKeepsStatus: for tables in which each measurement in force binds one claim; UntouchedEvidenceKeptIff
  covers the others.
- FrontmatterRoundTrip.ParseOfSingleLines: fields with newlines are covered by ParseOfRender and HeaderRoundTripIff.
- LifecycleSafety.RunSafeIff: runs are made of the operations modelled, with identifiers drawn fresh. Reading artifact files
  back with `haft sync` takes the status from the file and clears the references of a decision, so runs with a sync are
  outside; recording on a decision leaves its status and references alone.
- LifecycleSafety.RunsAreSafe: the same runs.
- DriftExact.DriftAfterBaseline: the hash is collision-free and visibility does not change between the two trees.
