# Verification of the upgrade analyser

A Dafny model of the deterministic middle of the analyser, and proofs about it. Nothing here runs the
program; the files are checked with `dafny verify dfyconfig.toml`.

The model has five parts.

* **Upgrade path, plan and rollout** (`Text`, `Versions`, `NodeSteps`, `Traces`, `Rollout`, `KubeletLag`, `Lists`, `Planner`,
  `PlanMeaning`, `PhasePartition`). The path goes minor by minor; the plan's commands get a meaning over a cluster of any size
  (per node: kubeadm package, installed and running kubelet, cordon flag; per control plane node an apiserver;
  and the cluster-wide version `kubeadm upgrade node` follows). The standard is the Kubernetes Version Skew
  Policy, "Supported version skew", at minor granularity, because the plan always applies `v<minor>.0`. The kubelet
  of a control plane node is held against its own apiserver, that of a worker against every apiserver.
* **Findings pipeline** (`Ranking`, `DeprecatedApi`, `GuideVerdicts`, `ApiSummary`, `EarliestWorst`, `Retriever`, `DocumentOrder`, `Compatibility`,
  `Readiness`, `Pipeline`, `RiskCounts`). Merge, summaries, inventory and component list share one pattern, a first-wins maximum per
  key in an insertion-ordered dict; its laws are proved once and carried through evaluation, merge, summary,
  severities, weights and the capped score.
* **Replies and requests of kubectl-ai** (`GoQuote`, `KubectlReply`, `ShellWords`, `RequestQueue`, `QueueService`). Go's `%q`, the two lazy
  regular expressions, JSON unescaping (section 7 of RFC 8259) and `shlex.join`, read back by the shell's rules of quoting; and the queue between callers and the
  background loop as a state machine over all interleavings.
* **Analysis session** (`SessionProtocol`, `SessionGuarantees`, `ReportRequests`, `AnalysisService`). One writer, any number of event
  streams and report requests, interleaved write by write. Two booleans choose the order of the writer's last two
  writes and of the reader's two reads; the source is `Order(false, false)`.
* **Text splitting and inventory** (`Ingestion`, `Addon`).

Results about the code that differ from what one might expect:

* The kubeadm guide (`rag/documents/kubeadm-guides/kubeadm-upgrade-guide.md`) drains control plane nodes as well; the
  code (`backend/app/agents/planner.py:159-199`) does not. The model follows the code.
* An event stream can close without a terminal event, and `EndAlwaysSentIff` says which orders of writes and reads
  exclude it; a completed analysis can turn into a failed one (`CompletedMayFail`); a report request gets a failure
  without its reason exactly when it reads it between two writes (`ReasonMissingIff`).
* A target such as `1.036.2` keeps the label `1.036`, and towards `1.036` pluto reports under a label no phase carries. The
  exact conditions are `CanonicalTarget` for monotonicity in the target, `Anchored` or nothing flagged for the partition of
  the findings, and `Anchored` or `GuideCovers` for that of the risks.
* The policy allows kubelets three minors behind, but a plan started on such a cluster breaks it, because it moves the
  apiservers first and asks no kubelet (`SafeIffNoneLags`).
* A plan for a cluster without listed control plane nodes is refused at its first worker (`RolloutAccepted`).

Parameters stand for what is outside: lower-casing, slugs and curated image patterns are functions, the structural
risks a list, `strconv.IsPrint` a predicate known on ASCII only, tool replies and the outcome of an analysis arbitrary.

## Model

| member | source | states |
|---|---|---|
| `Versions.ComputeUpgradePath` | backend/app/agents/planner.py:33-49 | the loop yields exactly the specified path, or the error of the first check that fails |
| `Versions.PathExists` | backend/app/agents/planner.py:35-42 | a path exists exactly when both texts parse, the major is kept and the minor grows; the explicit error means both texts parsed |
| `Versions.PathSteps` | backend/app/agents/planner.py:44-49 | target - current + 1 entries, starting at the current text, entry i reading back as minor current + i |
| `Versions.PathSpelled` | backend/app/agents/planner.py:44-49 | the ends are spelled as given, the target only if it has a patch, and everything generated as `<major>.<minor>.x` |
| `Versions.PatchIff` | backend/app/agents/planner.py:21-25 | a version has a patch exactly when its third dotted part is not empty and made of digits |
| `Versions.PathMinors` | backend/app/agents/compatibility.py:73-80 | the minors to evaluate are those after the current one, one per step, numerically consecutive and strictly ascending |
| `Versions.TargetsAfterFirst` | backend/app/agents/compatibility.py:73-75 | the first entry of a path is evaluated only if nothing follows it |
| `Versions.PathLabelCanonical` | backend/app/agents/planner.py:28-30 | a step's label is the canonical text of its minor exactly when it is not the last step or the target is written canonically |
| `Versions.NearerPathIsPrefix` | backend/app/agents/planner.py:44-49 | a nearer target visits a prefix of a farther target's labels exactly when the nearer target is canonical |
| `Versions.OddTargetAccepted` | backend/app/agents/planner.py:33-49 | `1.036` and `1.036.2` are accepted as targets, and the latter is not canonical |
| `Versions.LabelReadsBack` | backend/app/agents/deprecated_api.py:27-34 | the numeric reading of a label is the major and minor of the version it was cut from |
| `Versions.MinorTupleReads` | backend/app/agents/deprecated_api.py:27-29 | a version reads as its major and minor with or without leading `v`s and with or without further parts |
| `Text.ParsePrintInt` | backend/app/agents/planner.py:46-48 | an integer printed into a version text is read back as itself and adds no dot |
| `Text.ParseIntReads` | backend/app/agents/planner.py:23 | digits are read as their number, with white space around and after one sign, which negates if it is a minus |
| `Text.UnderscoreReads` | backend/app/agents/planner.py:23 | one underscore between two digits changes nothing; twice, at the start or at the end it is refused |
| `NodeSteps.BuildControlPlaneSteps` | backend/app/agents/planner.py:159-199 | the loop yields one step per node in order, the first with plan and apply, the others with upgrade node |
| `NodeSteps.BuildWorkerSteps` | backend/app/agents/planner.py:202-220 | the loop yields one step per worker in order, from drain to uncordon |
| `NodeSteps.RolloutSize` | backend/app/agents/planner.py:159-220 | n phases with c >= 1 control plane nodes and w workers have n * (5 + 4 (c - 1) + 6 w) commands, and apply occurs once per phase |
| `Rollout.WholePhase` | backend/app/agents/planner.py:115-123 | one phase takes a cluster ready at minor k safely to everything at k + 1, uncordoned |
| `Rollout.RolloutPrefix` | backend/app/agents/planner.py:94-127 | after n phases every apiserver, kubeadm and kubelet is exactly n minors on, every step on the way being safe and lawful |
| `Rollout.EveryPrefixIsSafe` | backend/app/agents/planner.py:94-127 | after any number of commands nothing was refused, the skew policy and the cordon rule hold, and the next command downgrades nothing, moves an apiserver by at most one minor with kubeadm there before it, and changes no version on a worker but while it is cordoned |
| `KubeletLag.SafeIffNoneLags` | backend/app/agents/planner.py:94-127 | from a cluster the policy accepts, with a control plane node and something to do, every prefix is safe exactly when no kubelet is already three minors behind |
| `KubeletLag.ApiserverMoved` | backend/app/agents/planner.py:159-199 | whatever kubelets run, the commands up to the apiserver of a control plane node are accepted and move it one minor on |
| `Rollout.FirstKubeletRunsAhead` | backend/app/agents/planner.py:178-187 | with two or more control plane nodes the first kubelet is newer than the second apiserver after five commands |
| `Rollout.StrictPolicyHolds` | backend/app/agents/planner.py:178-187 | the stricter reading, every kubelet against every apiserver, holds on all prefixes exactly with a single control plane node or nothing to do |
| `Rollout.WorkersAloneAreStuck` | backend/app/agents/planner.py:202-220 | a plan without control plane nodes is refused at its first worker |
| `Rollout.RolloutAccepted` | backend/app/agents/planner.py:89-127 | a plan runs to its end exactly when there is a control plane node, or no worker, or no phase |
| `Planner.BuildUpgradePlan` | backend/app/agents/planner.py:94-134 | one phase per step of the path with its share of results, findings, risks and its commands; an entry without a dot raises |
| `PlanMeaning.PhasesChain` | backend/app/agents/planner.py:95-134 | the phases are numbered from 1, each starts where the one before ended and reads one minor on, from the current text to the target, and exactly the last is final |
| `PlanMeaning.PhaseSteps` | backend/app/agents/planner.py:159-220 | in each phase of the plan every node has one step, numbered in order, with exactly the commands of its role, spelled for the minor of the phase |
| `PhasePartition.ResultsPartitioned` | backend/app/agents/planner.py:99 | every compatibility result is in exactly one phase, so the phases add up to the results, copies included |
| `PhasePartition.FindingsPartitioned` | backend/app/agents/planner.py:100 | every merged finding is in exactly one phase, copies included, exactly when pluto flags nothing or the target has a patch or a canonical label |
| `PlanMeaning.RiskInPhase` | backend/app/agents/planner.py:101 | a phase holds all copies of the risks of its step and of those of no step, and no other risk |
| `PhasePartition.RisksPartitioned` | backend/app/agents/planner.py:101 | every labelled risk of the analysis is listed as often as it occurs, in the one phase of its label, exactly when the target has a patch or a canonical label, or the guide reports every resource pluto flags at least as severely |
| `PhasePartition.RiskOrigin` | backend/app/agents/risk.py:163-231 | every labelled risk carries the minor of a compatibility result or of a row of the deprecated-API table |
| `PhasePartition.NoLateRowIff` | backend/app/agents/deprecated_api.py:110-136 | the table has no row of pluto's own exactly when the guide reports each of its findings' resources at least as severely |
| `PhasePartition.OddTargetUnlisted` | backend/app/agents/planner.py:99-101 | towards `1.036`, a flagged item is in no phase, neither as a finding nor as a risk, although the analysis succeeds |
| `PlanMeaning.PlanSafeThroughout` | backend/app/agents/planner.py:78-134 | from the two version texts on: every prefix of the plan's commands is accepted, safe and lawful on a cluster ready at the current minor |
| `PlanMeaning.PlanArrives` | backend/app/agents/planner.py:78-134 | after phase i of the plan everything is at current + i, and after all phases at the target minor |
| `DeprecatedApi.LookupIsFirst` | backend/app/rag/retriever.py:151-157 | the first guide entry for the kind and API version decides; none means there is no verdict |
| `DeprecatedApi.EvaluateDeprecatedApis` | backend/app/agents/deprecated_api.py:42-107 | the nested loops yield exactly the specified findings, or raise on the first unreadable version |
| `GuideVerdicts.EntryDecides` | backend/app/agents/deprecated_api.py:78-106 | said of the result: an observation with an entry is reported, once per copy, as a blocker exactly at the minors at or past the removal unless found in a chart, as requiring action exactly at those at or past the deprecation and before the removal, or in a chart past the removal, and otherwise not at all |
| `GuideVerdicts.WithoutEntry` | backend/app/agents/deprecated_api.py:50-72 | without an entry a prerelease API is reported as UNKNOWN once per copy, at the first minor only, and anything else never |
| `GuideVerdicts.NothingElse` | backend/app/agents/deprecated_api.py:48-107 | every finding is of an observation and of a minor of the path |
| `GuideVerdicts.RaisesIff` | backend/app/agents/deprecated_api.py:78-83 | the evaluation raises exactly when some first entry has an unreadable removal, or an unreadable deprecation and no removal reached at the first minor |
| `GuideVerdicts.PrereleaseIff` | backend/app/agents/deprecated_api.py:37-39 | an API version is a prerelease exactly when `beta` or `alpha` stands in it, letter by letter in either case |
| `DeprecatedApi.VerdictWorsens` | backend/app/agents/deprecated_api.py:78-87 | a verdict readable at one minor is readable at every later one and at least as severe there |
| `DeprecatedApi.FlaggedSuffix` | backend/app/agents/deprecated_api.py:78-106 | the findings of an observation with an entry flag exactly a suffix of the path, each minor with its own verdict |
| `DeprecatedApi.HelmVerdict` | backend/app/agents/deprecated_api.py:84-87 | a chart copy is never a blocker, is flagged exactly where the live copy is, and differs only by that downgrade |
| `EarliestWorst.ChartsNeverBlock` | backend/app/agents/deprecated_api.py:84-136 | what was found only in a chart is a blocker neither among the findings of guide and pluto, nor after the merge, nor in the table |
| `DeprecatedApi.CopiesFlaggedAlike` | backend/app/agents/deprecated_api.py:48-106 | two copies of one resource, wherever found, are flagged at the same minors, and raise together |
| `ApiSummary.CollectPluto` | backend/app/collectors/pluto_scan.py:73-101 | the loop yields exactly the specified findings, all at the target minor |
| `ApiSummary.PlutoFindings` | backend/app/collectors/pluto_scan.py:73-101 | every pluto finding is at the given target, at least ACTION_REQUIRED, and not a blocker if found in a chart |
| `ApiSummary.PlutoTells` | backend/app/collectors/pluto_scan.py:73-101 | one finding per removed or deprecated item, in order: a blocker exactly if removed and not in a chart, with the names, namespace and origin of the item |
| `ApiSummary.PlutoTargetIsLast` | backend/app/collectors/pluto_scan.py:43 | pluto's minor reads as the last minor of the path, and is spelled like it exactly when the target has a patch or a canonical label |
| `ApiSummary.MergeFindings` | backend/app/agents/deprecated_api.py:110-125 | the dict loop over all groups yields the first-wins maximum of severity, then guide over pluto, per key, in order of first appearance |
| `EarliestWorst.MergedRows` | backend/app/agents/deprecated_api.py:113-125 | a key has a row exactly when a finding has it, and exactly one |
| `EarliestWorst.MergeRegroups` | backend/app/agents/deprecated_api.py:110-125 | merging is associative over groups and idempotent |
| `EarliestWorst.MergeOrderFree` | backend/app/agents/deprecated_api.py:110-125 | status and kind of evidence of every key depend on neither the order of groups nor the order within them |
| `EarliestWorst.GuideWinsTie` | backend/app/agents/deprecated_api.py:123-124 | a guide finding of maximal severity for its key always wins over pluto's |
| `ApiSummary.SummarizeDeprecatedApis` | backend/app/agents/deprecated_api.py:128-136 | the dict loop yields the first most severe finding per resource, in order of first appearance |
| `EarliestWorst.SummaryIsEarliestWorst` | backend/app/agents/deprecated_api.py:78-136 | after evaluate, merge with pluto and summarise, each resource has exactly one row, of maximal status over all its raw findings and at the smallest minor reaching it |
| `EarliestWorst.MergedClimbs` | backend/app/agents/deprecated_api.py:113-125 | replacing values in place keeps the rows of a resource in ascending order of minors |
| `Ranking.BestIsFirstArgmax` | backend/app/agents/deprecated_api.py:121-124 | the winner of a key is exactly the item at the first position of maximal score |
| `Ranking.RowsAbsorb` | backend/app/agents/deprecated_api.py:113-125 | ranking part of the input beforehand changes nothing |
| `Ranking.OrderFree` | backend/app/agents/deprecated_api.py:113-125 | the same items in any order give the same keys, each with a row of the same score |
| `Ranking.MoreWeighsMore` | backend/app/models/risk.py:18-24 | with weights that grow with severity, more items never make the ranked rows weigh less |
| `Retriever.LookupIsFirstApplicable` | backend/app/rag/retriever.py:94-149 | both branches amount to the first entry of that component and minor whose pattern is absent or a prefix of the version; none means UNKNOWN without sources |
| `Retriever.AppliesIff` | backend/app/rag/retriever.py:101-115 | an entry applies exactly to its component in any case, at its minor, and at every version or those that begin with its pattern |
| `Retriever.EntryOrderFreeIff` | backend/app/rag/retriever.py:94-149 | for a query, the order of the single entries is irrelevant exactly when all entries that apply agree |
| `Retriever.EntryOrderFreeAtEveryVersion` | backend/app/rag/retriever.py:94-149 | at every version, the order of the single entries is irrelevant exactly when entries with comparable patterns agree |
| `DocumentOrder.FirstDocumentDecides` | backend/app/rag/ingestion.py:177-187 | over several documents the first with an applicable entry decides, by its own first applicable entry |
| `DocumentOrder.OrderFreeIff` | backend/app/rag/ingestion.py:177-187 | for a query, the order of the documents is irrelevant to the ruling, or to its status alone, exactly when all documents with an applicable entry rule alike |
| `DocumentOrder.OrderFreeAtEveryVersion` | backend/app/rag/retriever.py:94-149 | at every version, exactly when the documents rule alike at the empty version and at each pattern that occurs in them |
| `DocumentOrder.SeparateIsOrderFree` | backend/app/rag/retriever.py:94-149 | patterns that are no prefixes of each other across documents suffice, whatever a document says within itself |
| `DocumentOrder.OneDocumentDivided` | backend/app/rag/ingestion.py:116-142 | a single document can hold two applicable entries that disagree, so that their order within it matters |
| `Compatibility.GatherComponents` | backend/app/agents/compatibility.py:28-49 | inventory and first node give one component per slug, by first mention |
| `Compatibility.ComponentsFirstWins` | backend/app/agents/compatibility.py:35-49 | slugs are distinct and each component is the first offer of its slug |
| `Compatibility.ComponentVersion` | backend/app/agents/compatibility.py:35-49 | a component is asked about in the version of its first mention in the inventory, else in the version the first node reports for runtime, system, kernel or cgroup, in this order, else not at all |
| `Compatibility.EvaluateCompatibility` | backend/app/agents/compatibility.py:52-60 | the nested loops ask every component at every minor, in order |
| `Compatibility.EveryRuling` | backend/app/agents/compatibility.py:52-60 | the results are exactly the rulings on each component, in its version, at each minor of the path |
| `Compatibility.SummarizeCompatibility` | backend/app/agents/compatibility.py:63-70 | the dict loop yields the first worst result per component |
| `Compatibility.SummaryIsWorstFirst` | backend/app/agents/compatibility.py:52-70 | end to end one row per component in order of first mention: its answer at the first minor of the path where it is at its worst |
| `Readiness.BuildRiskFindings` | backend/app/agents/risk.py:20-34 | the risks are the structural ones followed by those of the compatibility and deprecated-API rows, UNKNOWN and worse only, with severities and step labels |
| `RiskCounts.CompatCounts` | backend/app/agents/risk.py:163-185 | high, medium and low risks number the INCOMPATIBLE, WARNING and UNKNOWN rows; there are no blockers |
| `RiskCounts.ApiCounts` | backend/app/agents/risk.py:188-231 | blockers, high and low risks number the UPGRADE_BLOCKER, ACTION_REQUIRED and UNKNOWN rows; none is medium |
| `RiskCounts.CompatSteps` | backend/app/agents/risk.py:182 | the same counts hold step by step: each compatibility risk is labelled with the minor of its row |
| `RiskCounts.ApiSteps` | backend/app/agents/risk.py:228 | the same counts hold step by step for the deprecated-API risks |
| `RiskCounts.PointsOfRows` | backend/app/models/risk.py:18-24 | the uncapped deduction is 20, 8, 3 and 1 times the numbers of rows of each status in the two tables, plus that of the structural risks |
| `Readiness.CompatPoints` | backend/app/agents/risk.py:163-185 | the compatibility risks weigh what their rows weigh |
| `Readiness.ApiPoints` | backend/app/agents/risk.py:188-231 | the deprecated-API risks weigh what their rows weigh |
| `Readiness.ReadinessScore.FromFindings` | backend/app/models/risk.py:65-90 | score and complexity are the capped sum of the weights of the findings, the five counts add up to their number |
| `Readiness.FactorsAddUp` | backend/app/models/risk.py:70-80 | the points of the listed factors add up to the uncapped sum of weights |
| `Readiness.FactorsListed` | backend/app/models/risk.py:70-79 | the factors are those of the severities that occur, worst first, at weights 20, 8, 3 and 1, INFO never |
| `Readiness.ReadinessLaws` | backend/app/models/risk.py:65-90 | score + complexity = 100, the cap is the only difference from the sum, and a permutation of the findings changes no figure |
| `Readiness.BackfillRecovers` | backend/app/models/risk.py:58-63 | the complexity inferred from an old snapshot's score is the one it was computed with |
| `Readiness.BackfillBounded` | backend/app/models/risk.py:58-63 | from any score the inferred complexity lies between 0 and 100, and is 100 minus the score where that does |
| `Pipeline.MoreEvidence` | backend/app/agents/upgrade_agent.py:143-167 | more structural risks, raw compatibility results or raw findings from any scanner never lower complexity nor raise the score |
| `Pipeline.AnalysisFails` | backend/app/agents/upgrade_agent.py:143-153 | the analysis fails exactly without an upgrade path, with the error of the path, or with a guide that cannot be read |
| `Pipeline.JudgedAllFarther` | backend/app/agents/upgrade_agent.py:148-153 | what is reported towards a nearer target is reported towards a farther one, which is readable if the nearer was |
| `Pipeline.FartherNeverSimpler` | backend/app/agents/upgrade_agent.py:143-167 | with pluto skipped, a strictly farther target never makes the analysis fail or the complexity fall, for all clusters and documents, exactly when the nearer target is canonical |
| `Pipeline.OddTargetLooksHarder` | backend/app/agents/upgrade_agent.py:143-167 | from 1.35, going to 1.37 can look simpler than going to `1.036.2` |
| `GoQuote.UnescapeEscape` | backend/app/mcp/client.py:49-55 | reading back a field printed by %q gives the text exactly when all its characters are spelled alike in Go and JSON, and is refused otherwise |
| `GoQuote.JsonReads` | backend/app/mcp/client.py:49-55 | a character is read from its hexadecimal escape, or from its pair of surrogates beyond the basic plane; half a pair is refused |
| `GoQuote.JsonShortReads` | backend/app/mcp/client.py:49-55 | which short escapes stand for which characters, and that there is no other |
| `GoQuote.JsonRefuses` | backend/app/mcp/client.py:49-55 | a raw quote, a control character, a lone backslash and an escape without four hexadecimal digits are refused; any other character stands for itself |
| `GoQuote.SpellSealed` | backend/app/mcp/client.py:39-46 | a printed field holds no raw newline, and a quote only after a backslash |
| `GoQuote.EndsAlike` | backend/app/mcp/client.py:42-46 | a printed field ends in a word such as `Error: ` exactly when the text itself does |
| `KubectlReply.Search` | backend/app/mcp/client.py:45-46 | returns the group of the leftmost match, lazy in its group, and nothing exactly when there is no match |
| `KubectlReply.NoReply` | backend/app/mcp/client.py:65-67 | a text in which neither expression matches is raised with its first 300 characters |
| `KubectlReply.OutputAlone` | backend/app/mcp/client.py:65-72 | a text with an output field and no error field is read by its output alone |
| `KubectlReply.ReadsPrintedReply` | backend/app/mcp/client.py:58-72 | what the parser makes of every printed reply: the stripped error, the output as text, decoded or as an empty object, or a decoding error for an unshared character or a command ending in `Error: ` or `Stdout: ` |
| `KubectlReply.CommandEnds` | backend/app/mcp/client.py:209 | no command made by shlex.join ends in `Error: ` or `Stdout: ` |
| `ShellWords.CommandReadsBack` | backend/app/mcp/client.py:209 | split by the shell's rules of quoting, the command is `kubectl` and exactly the given arguments |
| `KubectlReply.RoundTrip` | backend/app/mcp/client.py:58-72 | for every argument list the caller gets exactly the stripped error unless it is blank, else the output: as text if it asked for text, an empty object if it is blank, and decoded otherwise |
| `RequestQueue.EveryRun` | backend/app/mcp/client.py:163-241 | the invariant holds after every interleaving of callers, loop, timeouts, failures and closes |
| `QueueService.StopsIff` | backend/app/mcp/client.py:203-224 | in every run the loop has stopped exactly if it died, failed to connect, or took the close signal; a failed call does not stop it |
| `QueueService.BacklogIsServed` | backend/app/mcp/client.py:202-220 | from every reachable waiting state and for any replies, the loop's own steps answer all requests queued before a close signal, each with its own reply |
| `QueueService.ServingEnds` | backend/app/mcp/client.py:208-220 | a call in service ends with whatever comes back, and the loop waits again |
| `QueueService.IdleTakes` | backend/app/mcp/client.py:202-207 | a waiting loop takes the next item as soon as there is one, and stops at the close signal |
| `QueueService.QueueIsPuts` | backend/app/mcp/client.py:226-238 | in every run the queue holds exactly the calls and close signals put there, in order and unchanged |
| `QueueService.FaultsPossible` | backend/app/mcp/client.py:163-224 | the runs include every fault: dying at any moment, a failing connection, a wait that runs out |
| `QueueService.ConstructionEnds` | backend/app/mcp/client.py:170-179 | in every run the constructor raises the connection's error, a timeout, or returns, exactly if it looked after a failure, its wait ran out, or it looked and nothing had failed |
| `QueueService.CallersEnd` | backend/app/mcp/client.py:226-235 | in every run a caller has an answer exactly if it collected one, and has given up exactly if its wait ran out |
| `QueueService.CallerHasStep` | backend/app/mcp/client.py:229-235 | a waiting caller can always take its future's answer or, without one, give up |
| `QueueService.FailedCall` | backend/app/mcp/client.py:214-219 | a call that raised ends in an exception, one that reported an error in its first 300 characters |
| `RequestQueue.PastIsKept` | backend/app/mcp/client.py:226-235 | a future is resolved at most once, and a caller's answer or timeout is final |
| `RequestQueue.AnswersAreOwn` | backend/app/mcp/client.py:207-220 | a future holds the outcome of the command made of its own arguments, and a caller gets its own future's answer; a late one reaches nobody else |
| `RequestQueue.FirstInFirstOut` | backend/app/mcp/client.py:203-220 | before a request is answered all earlier ones have been; every answered slot is resolved once, in queue order |
| `RequestQueue.NothingBehindSentinel` | backend/app/mcp/client.py:204-206 | nothing queued behind the close signal is ever served |
| `RequestQueue.ReturnsInitialised` | backend/app/mcp/client.py:163-179 | the constructor returns only after the session was initialised, and nothing is queued before it returns |
| `RequestQueue.CallerGetsOwnOutput` | backend/app/mcp/client.py:207-235 | from queue to parser: an answered caller got exactly the stripped error, the text, the decoded output or an empty object, as its own command's reply and its own wish have it |
| `SessionProtocol.EveryRun` | backend/app/api/routes.py:91-115 | log, status, report, streams and requests fit together after every interleaving |
| `SessionGuarantees.StreamsSendPrefixes` | backend/app/api/routes.py:91-102 | every stream has sent a gapless, duplicate-free, in-order prefix of an append-only log, and never revises it |
| `SessionGuarantees.LateStreamSendsAll` | backend/app/api/routes.py:91-102 | a stream opened after the end has sent the whole log, a terminal event included, when it closes |
| `SessionGuarantees.StreamsClose` | backend/app/api/routes.py:94-102 | after the end a stream always has a step until it is closed, and each step brings it nearer |
| `SessionGuarantees.StreamsEnd` | backend/app/api/routes.py:91-102 | in every run a stream is closed only once the analysis is over, and left early exactly if its client disconnected |
| `SessionGuarantees.ReportIsThere` | backend/app/api/routes.py:107-116 | the status never returns to running, completed implies a report, and the assertion never fails although the status is read twice |
| `ReportRequests.AnswerFollowsLooks` | backend/app/api/routes.py:107-116 | in every run a request answers that the analysis is in progress exactly if its first look found it running, a failure exactly if its second found it failed, and otherwise the report, at its third |
| `ReportRequests.LateRequest` | backend/app/api/routes.py:107-116 | a request made after the end is never told that it is in progress; its third look answers the report of a completed analysis, and the reason of a failed one |
| `ReportRequests.AnswerComes` | backend/app/api/routes.py:107-116 | from every reachable state at most three looks of its own bring a request to its answer |
| `ReportRequests.OnePerClient` | backend/app/api/routes.py:87-116 | in every run there are as many requests and streams as were made and opened |
| `ReportRequests.ClientsAreFree` | backend/app/api/routes.py:87-116 | at any moment a client may open a stream or ask for the report, and leave a stream that is not closed |
| `SessionGuarantees.LogIsOrdered` | backend/app/services/analysis_service.py:83-120 | progress never falls, only a failure can follow a terminal event, and completion comes after all ten nodes in order |
| `SessionGuarantees.ProgressIsShare` | backend/app/services/analysis_service.py:90 | the progress of a node is the whole part of ten plus its share of 85 |
| `SessionGuarantees.EndAlwaysSentIff` | backend/app/services/analysis_service.py:112-120 | every closed stream has sent a terminal event in every run exactly when the event is emitted before the status is set and the status is read before draining; the source does neither |
| `SessionGuarantees.EndMissedIff` | backend/app/api/routes.py:91-102 | per run and in every order, a closed stream has sent the log as it stood at its last drain, so it missed the terminal event exactly when the log held none then |
| `SessionGuarantees.SourceMissesEndIff` | backend/app/services/analysis_service.py:112-120 | in the source's own order a closed stream missed the terminal event exactly when it last left its drain before the writer had emitted one |
| `SessionGuarantees.StatusTooEarly` | backend/app/services/analysis_service.py:113-114 | a run in which a stream closes without a terminal event because the status was set first |
| `SessionGuarantees.StatusReadTooLate` | backend/app/api/routes.py:94-101 | a run in which it does because the status is read after draining |
| `SessionGuarantees.CompletedMayFail` | backend/app/services/analysis_service.py:115-120 | a run that is completed and then failed, with both terminal events in its log |
| `SessionGuarantees.ReasonMissingIff` | backend/app/services/analysis_service.py:118-119 | over all runs a report request answers a failure without a reason exactly when it read the reason between the write of the status and the write of the error |
| `SessionGuarantees.LateRequestGetsReason` | backend/app/api/routes.py:107-116 | a request made after the run has ended always gets the reason of a failure |
| `SessionGuarantees.FailureWithoutReason` | backend/app/services/analysis_service.py:118-119 | a run of the source in which a request falls between the two writes |
| `AnalysisService.AnalysisSession.Emit` | backend/app/services/session_store.py:28-31 | appends one event and changes nothing else |
| `AnalysisService.RunAnalysis` | backend/app/services/analysis_service.py:56-121 | the writes of the analysis, in their order, are a run of the writer, and leave status, report, error and log as stated for each way it can go |
| `Ingestion.MatchIsGreedy` | backend/app/rag/ingestion.py:21 | the computed match exists exactly when the expression accepts something there, and takes the longest white space |
| `Ingestion.FirstMatchIsFirst` | backend/app/rag/ingestion.py:83 | the scan stops at the first match and only there |
| `Ingestion.SectionBody` | backend/app/rag/ingestion.py:110 | removing the first match from a section leaves exactly what follows its header |
| `Ingestion.ChunkBody` | backend/app/rag/ingestion.py:82-113 | the loop yields the introduction and the sections with text, in order |
| `Ingestion.ChunksConserve` | backend/app/rag/ingestion.py:82-113 | the chunk texts keep every character outside the headers that is not white space, once and in order, and add none |
| `Ingestion.SectionsPartition` | backend/app/rag/ingestion.py:105-109 | introduction and sections partition the body exactly, in order |
| `Ingestion.SectionTitle` | backend/app/rag/ingestion.py:83 | a header line is two hashes, white space, the section's title and white space; the title is trimmed and in one line |
| `Ingestion.ChunkOrigin` | backend/app/rag/ingestion.py:98-112 | each chunk is the body under the document's title, the introduction, or a section under its own title |
| `Ingestion.ChunksTrimmed` | backend/app/rag/ingestion.py:98-112 | no chunk is empty or has white space at its ends |
| `Addon.TaggedSplits` | backend/app/collectors/addon.py:61-72 | repo:tag, with or without a digest, is split into repo and tag again, ports in the repo included |
| `Addon.UntaggedIff` | backend/app/collectors/addon.py:61-72 | a tag is found exactly when the reference up to its digest is some repo, a colon and a tag |
| `Addon.ImageRead` | backend/app/collectors/addon.py:75-90 | a tagged image, with or without a digest, gives the tag without leading `v`s as version and the first curated name, or else its last segment, as name |
| `Addon.TagVersion` | backend/app/collectors/addon.py:86 | no tag, an empty one and `latest` are no version |
| `Addon.CuratedFirst` | backend/app/collectors/addon.py:87-90 | the first curated pattern that matches decides, none exactly if none matches |
| `Addon.RegistryDropped` | backend/app/collectors/addon.py:36-45 | a first segment is dropped exactly if it is `localhost` or holds a dot or a colon, and something follows |
| `Addon.SegmentNames` | backend/app/collectors/addon.py:93-101 | the name is the last segment, joined to the one before if it is generic and there is one besides the registry |
| `Addon.EveryImageNamed` | backend/app/collectors/addon.py:75-101 | an image is named as soon as its repo is not empty |
| `Addon.CollectSoftwareInventory` | backend/app/collectors/addon.py:117-149 | the dict loop keeps the first software per name and namespace |
| `Addon.InventoryFirstWins` | backend/app/collectors/addon.py:135-149 | no software twice in a namespace, and each row is the first of its kind |
| `Addon.InventorySays` | backend/app/collectors/addon.py:128-148 | every row carries the name and version inferred from the image of its own container |
| `Addon.InventoryComplete` | backend/app/collectors/addon.py:128-149 | no container whose image has a repo is missed |
| `Addon.ComputeToObserved` | backend/app/collectors/manifest_scan.py:74-94 | the set and the list grow together to the distinct manifests in order |
| `Addon.ObservedOnce` | backend/app/collectors/manifest_scan.py:74-94 | no manifest is lost and none is repeated |

## Left out

- Subprocesses, the stdio transport, wall-clock time, the pluto binary and the decoding of Helm releases: outside the code; their results are arbitrary inputs, and a timeout is a step that may happen at any time.
- `kubeadm`, `dnf` and `systemctl` themselves: `Rollout.Effect` says what each command needs and changes; patch levels, drain options and pods are not modelled.
- Node name order: the plan sorts names; the claims hold for every order of distinct names. That no node is both control plane and worker is assumed of the cluster.
- TF-IDF search, LLM and release-note summaries, message texts, reasons, recommendations, replacement versions and confidence: free text or floating point, on which no verdict depends.
- Structural risks (node consistency, custom configuration, etcd, HA, cgroup): single-branch reads, taken as an arbitrary list. Only `RisksPartitioned` assumes of them that they carry no step, as in the source, where only `backend/app/agents/risk.py:182` and `backend/app/agents/risk.py:228` set one.
- `int()` of digits outside ASCII and its limit on very long texts: the model reads ASCII digits, signs, underscores and surrounding white space.
- Invalid status texts in documents: a status is one of the four values.
- Lone surrogates in an escaped field: no character of the model stands for them, so `GoQuote.Unescape` refuses them; Go never prints one.
- `json.loads` of the standard output and Python values: `KubectlReply.Document` carries the text that is decoded.
- Threads, the event loop and the HTTP layer: modelled as atomic steps on values (`RequestQueue`, `SessionProtocol`), progress means that a step exists, not that the scheduler takes it; `close` waiting for the thread is not modelled.
- A `run_analysis` thread killed by something that is not an `Exception`: it would leave the status at RUNNING.
- `AnalysisService.RunAnalysis`: event messages and timestamps are not modelled, and the ten nodes are announced in their order, as the linear graph does.
- `Planner.BuildUpgradePlan`: pre-checks, post-checks and release notes of a phase are not modelled.
- `Addon.CollectSoftwareInventory`: takes the containers in visiting order instead of nested workload records.
- Snapshots, uploads, logging, frontend, certificate, etcd and CNI collectors: plumbing or easy reads.
