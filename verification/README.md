# Verified model of the laboratory back end

A Dafny model of the algorithms of the oil-analysis back end that change several tables at once or
decide something a customer sees, with proofs of what they promise. A table is a map or a sequence of
records; a transaction is one step that commits or changes nothing. Services and commands that update
rows are methods of a class whose fields are the tables, each proved against a function of the old
state; the promises are lemmas about those functions.

| files | what they model |
|---|---|
| `LimitLeaves`, `LimitContract`, `LimitPlaces`, `LimitEntries` | flattening a test into coded leaves; merging saved rules, stored rows and component defaults onto them; both read off nodes, rules and rows |
| `LimitIdempotence`, `LimitEdits`, `LimitEvaluation`, `LimitExamples` | when reconciling twice is reconciling once; what survives structural edits; agreement with the aggregator |
| `Evaluation`, `EvaluationTheorems`, `EvaluationInvariance`, `EvaluationFields` | traffic-light verdicts, flat and grouped; the verdict read off the fields of the items |
| `BusinessCalendar`, `CivilDate` | service-level dates, urgency, reporting periods |
| `Forest`, `ForestContraction`, `ForestRoots` | forests of parent pointers: merging nodes, and putting roots in order |
| `AssetNodes`, `AssetRoots`, `AssetPlacement`, `AssetMerge`, `AssetTree`, `AssetRepair`, `AssetRows`, `AssetExamples` | company roots, the node of a machine, and duplicate machine nodes in the asset tree |
| `AssetSplice`, `AssetPath` | removing nodes of inactive machines; the path shown for a machine |
| `PointAssignments`, `PointHistory` | history of sampling-point assignments |
| `CatalogEditions`, `CatalogFields` | repair of catalog items without an edition |
| `Invitations`, `InvitationWrites`, `InvitationRuns`, `InvitationProfiles` | creating, accepting, revoking and resending invitations, and runs of them |
| `Basics`, `OrderedIds`, `Json` | options, ids in query order, JSON values with Python's truthiness |

## Where the code falls short of what one would expect

Each of these is a property that fails for some input. A lemma shows the input, and another the exact
condition under which the property holds.

- Reconciling a limit contract twice can differ from reconciling once when leaves share a code
  (`LimitExamples.SameNameTwice`). It is idempotent on all sources exactly when every leaf agrees with the
  last leaf of its code on what the pair determines (`LimitIdempotence.IdempotentIffConsistent`); distinct
  codes are one such case. When leaves share a code inconsistently, a row created by an earlier leaf also
  stays active under an informative last leaf (`LimitExamples.StaysActive`,
  `LimitEdits.ActiveRowsAreEvaluatedLeaves`).
- An evaluation of an active field is dropped when its id or label, by default the name of its component,
  happens to be the code of a leaf that is left out (`LimitExamples.DroppedByLabel`, `LimitEvaluation.ItemCountsIff`).
- The aggregator taken alone can be `CRITICO` grouped where it is `NO_DESEADO` flat: a group whose failures
  carry neither a yellow nor a red state (`EvaluationTheorems.SilentPairExists`, `GroupedAgainstFlat`).
  Adding a yellow item to such a group can improve the verdict (`EvaluationInvariance.AddingCanImprove`,
  `AddingImprovesIff`). The limit engine pairs every failure it produces with `NO_DESEADO`, `CRITICO` or
  `FUERA_DE_LIMITE` (globalIsc/apps/muestras/api/services/limit_engine.py:627-737 and 813-818), for which
  both verdicts agree (`EvaluationTheorems.GroupedRefinesFlat`).
- A unique constraint on machines (globalIsc/apps/activesTree/migrations/0014_unique_machine_tree_node.py) and
  one on company roots (0015_unique_company_root_tree_node.py) keep later tables from having two nodes for
  one machine or two roots for one company; on these the repair of duplicates does nothing
  (`AssetRepair.NothingToRepair`). The next three points are therefore about tables from before those
  migrations, which the repair command is for.
- Merging a machine node into one that lies below it makes a cycle (`AssetExamples.MergeCanCycle`); one merge
  does so exactly then (`Forest.MergingOneIsAcyclicIff`), and the whole repair exactly when its merges form
  a cycle (`AssetRepair.MergeIsAcyclicIff`). Merging into a node outside the tree strands what hung below
  the duplicate (`AssetExamples.MergeCanStrand`, `AssetRepair.MergeKeepsRootsIff`).
- The dry run of that repair is not a no-op: it creates, merges and renames company roots
  (`AssetExamples.DryRunRenames`, `DryRunCreates`, `UnderMergedRootIsPreferred`). It changes nothing exactly
  when the company of every duplicated machine has its one root, named after it
  (`AssetRepair.DryRunIsIdleIff`).
- A machine placed in a folder that is a root merged away by the same call is left dangling
  (`AssetExamples.NewNodeCanDangle`, `AssetPlacement.NewNodeRootedIff`).
- Removing nodes of inactive machines leaves dangling parents when an inactive node hangs from an
  inactive node with a smaller id (`AssetSplice.SplicingCanDangle`, `AssetSplice.NoneLeftDanglingIff`).
- The dry run of the catalog repair reports items as repairable on which applying fails, exactly when
  two unversioned items of a catalog share a code its current edition lacks
  (`CatalogEditions.ClashExample`, `CatalogEditions.CatalogTables.Handle`).
- An account can end up active in two companies (`InvitationProfiles.TwoActiveProfiles`): an accept leaves it
  in one exactly if it is a transfer or there was no other (`InvitationProfiles.AcceptLeavesOneActiveIff`).
- An accepted invitation does not stay accepted: revoking or resending it overwrites its status, and nothing
  else does (`InvitationRuns.RunsKeepHistory`).

## Model

| member | source | states |
|---|---|---|
| `LimitLeaves.TestLimitLeaves` | globalIsc/apps/misc/api/services/limit_contract.py:24-54 | the nested loops return the leaves of the structure, and never none: a test without active results gets one leaf named after the test |
| `LimitLeaves.ComponentsOnce` | globalIsc/apps/misc/api/services/limit_contract.py:28-50 | the components the leaves stand for, in leaf order, are the active components of the test in structure order: none missing, none repeated |
| `LimitLeaves.EveryActiveResultHasALeaf` | globalIsc/apps/misc/api/services/limit_contract.py:29-50 | every active result is the result of at least one leaf, whatever its divisions |
| `LimitPlaces.LeavesIff` | globalIsc/apps/misc/api/services/limit_contract.py:24-193 | exactly which leaves there are and how each is called: one for every active component, for every active division without any, for every active result without these, with the names joined in that order and hyphens of the slug turned into underscores; without active results one named after the test |
| `LimitPlaces.LeavesInOrder` | globalIsc/apps/misc/api/services/limit_contract.py:27-50 | the leaves follow the structure: results, divisions and components in the order of the queries, without the inactive ones |
| `LimitContract.LimitTables.WriteRow` | globalIsc/apps/misc/api/services/limit_contract.py:140-169 | one leaf touches only the row of its own code: an evaluated leaf upserts it, any other deactivates a row that was stored before |
| `LimitContract.LimitTables.ReconcileOne` | globalIsc/apps/misc/api/services/limit_contract.py:68-181 | the loop over the leaves of one source computes `ReconcileSource` and leaves every other source alone |
| `LimitContract.LimitTables.Reconcile` | globalIsc/apps/misc/api/services/limit_contract.py:57-183 | exactly the sources of the test are reconciled, once each, and the number returned is how many there are |
| `LimitEdits.ReconcileLimitContract` | globalIsc/apps/misc/api/services/limit_contract.py:57-183 | flattening and reconciling together, as the two are called for one test |
| `LimitIdempotence.EntryGet` | globalIsc/apps/misc/api/services/limit_contract.py:108-137 | what each decision key of a new `campos` entry holds after the saved rule is overlaid |
| `LimitIdempotence.EntryOther` | globalIsc/apps/misc/api/services/limit_contract.py:108-109 | a key that reconciliation does not set, such as a value band, passes through with its value |
| `LimitIdempotence.RuleStable` | globalIsc/apps/misc/api/services/limit_contract.py:82-137 | a rule read back from the entry that the last leaf with the same code wrote is the rule decided before, for every saved rule and stored row |
| `LimitIdempotence.RuleStableEmpty` | globalIsc/apps/misc/api/services/limit_contract.py:82-137 | the same for the empty code, whose saved rule is never found again, so that only the stored row can carry the decision |
| `LimitIdempotence.SavedBack` | globalIsc/apps/misc/api/services/limit_contract.py:71-175 | written back, `campos` yields for a code the entry of the last leaf that has it, and nothing for a code without leaves |
| `LimitIdempotence.StoredAfter` | globalIsc/apps/misc/api/services/limit_contract.py:138-174 | the row of any code after the whole loop, whatever codes the leaves share: that of the last evaluated leaf with the code, inactive if the row was there before and a later leaf with the code is not evaluated; without an evaluated leaf the row that was there, inactive |
| `LimitIdempotence.ConsistentIsIdempotent` | globalIsc/apps/misc/api/services/limit_contract.py:57-183 | if the leaves that share a code agree on what they determine, reconciling twice gives what reconciling once gives: rules, informative codes and rows, for every prior mix of saved rules and stored rows |
| `LimitIdempotence.InconsistentWitness` | globalIsc/apps/misc/api/services/limit_contract.py:57-183 | otherwise there is a source on which a second reconciliation changes something; the lemma constructs it |
| `LimitIdempotence.IdempotentIffConsistent` | globalIsc/apps/misc/api/services/limit_contract.py:57-183 | reconciliation of a structure is idempotent on all sources if and only if the structure is `Consistent`, a condition on the leaves alone |
| `LimitIdempotence.DistinctCodesIdempotent` | globalIsc/apps/misc/api/services/limit_contract.py:57-183 | distinct leaf codes suffice for idempotence |
| `LimitExamples.SameNameTwice` | globalIsc/apps/misc/api/services/limit_contract.py:24-183 | a test with two results of one name, only the second with a unit: under any slug function its leaves share a code inconsistently, and there is a source that a second reconciliation changes |
| `LimitEdits.CamposListLeaves` | globalIsc/apps/misc/api/services/limit_contract.py:108-175 | the new `campos` has one entry for each leaf, in leaf order, carrying its code |
| `Json.FalseValues` | globalIsc/apps/misc/api/services/limit_contract.py:64-88 | which values `or` passes over: null, false, zero and the empty string, list and object, and no others |
| `LimitEntries.SavedRuleIs` | globalIsc/apps/misc/api/services/limit_contract.py:62-78 | the saved rule of a code is the last object of the list whose truthy code renders to it, or empty |
| `LimitEntries.EntryByFields` | globalIsc/apps/misc/api/services/limit_contract.py:76-138 | every entry of the new `campos`, key by key: ids and names of the nodes of its leaf; type, unit and labels from the structure, then the saved rule, then the default; comparison, operator, origin and switches from the saved rule, then the stored row, then the default for the type; values from the saved rule even if null, else from the row; other keys as saved |
| `LimitEntries.RowByFields` | globalIsc/apps/misc/api/services/limit_contract.py:140-176 | the row of any code, column by column: that of the last leaf with the code whose entry counts, else the stored row deactivated and otherwise unchanged, else none |
| `LimitEntries.SourceByFields` | globalIsc/apps/misc/api/services/limit_contract.py:177-181 | test, kind and every other setting of a source stay, and `informativos` lists the codes of the informative entries in leaf order |
| `LimitEdits.RowOutcome` | globalIsc/apps/misc/api/services/limit_contract.py:138-174 | the same row, read off the reconciled source, for every structure |
| `LimitEdits.ActiveRowsAreEvaluatedLeaves` | globalIsc/apps/misc/api/services/limit_contract.py:138-181 | for every structure: a row is active exactly when the entry of some leaf with its code is not informative and has neither `participa` nor `evalua` false, and that is the last leaf with the code or the row is new; it then links to the result, division and component of the last such leaf with its position |
| `LimitEdits.ActiveRowsOfDistinctCodes` | globalIsc/apps/misc/api/services/limit_contract.py:138-181 | with distinct codes: a row is active exactly when the entry of its leaf is evaluated, and it links to that leaf |
| `LimitEdits.NoRowIsDeleted` | globalIsc/apps/misc/api/services/limit_contract.py:140-174 | no stored row disappears, and columns outside the contract keep their values |
| `LimitEdits.NewLeafRule` | globalIsc/apps/misc/api/services/limit_contract.py:82-105 | what a code seen for the first time gets: comments are informative, booleans compare for equality, the rest against a maximum |
| `LimitEdits.SettledStays` | globalIsc/apps/misc/api/services/limit_contract.py:82-137 | a rule that a reconciliation has written keeps operator, comparison, origin, participation, values and every foreign key of its entry, whatever the leaf becomes |
| `LimitEdits.RulesSurviveEdits` | globalIsc/apps/misc/api/services/limit_contract.py:57-183 | over any sequence of structural edits that keep a nonempty code, whatever other codes leaves share, with all node ids replaced each time: the rule saved for that code stays the same |
| `LimitEdits.RunWithout` | globalIsc/apps/misc/api/services/limit_contract.py:140-174 | over any sequence of edits without a code its row survives inactive and unlinked, all other columns unchanged, and its saved rule is gone |
| `LimitEdits.EvaluatedRow` | globalIsc/apps/misc/api/services/limit_contract.py:140-169 | when the rule saved for a nonempty code is evaluated, its row holds the operator and comparison type of that rule and links to the last leaf with the code |
| `LimitEdits.RuleRecoveredOnReturn` | globalIsc/apps/misc/api/services/limit_contract.py:82-169 | a nonempty code whose rule is evaluated, removed by any number of edits and then back, recovers operator and comparison type from its inactive row, which becomes active and linked to the last leaf with the code |
| `LimitEvaluation.IgnoredAfterReconciling` | globalIsc/apps/misc/api/services/limit_contract.py:138-180 | the fields that the aggregator ignores under a reconciled configuration are exactly the codes of leaves whose entry is informative or not evaluated |
| `LimitEvaluation.ActiveRowsAreCounted` | globalIsc/apps/muestras/api/services/evaluation_rules.py:40-51 | with distinct codes, the code of an active field row is not among the ignored fields of a reconciled configuration |
| `LimitExamples.StaysActive` | globalIsc/apps/misc/api/services/limit_contract.py:24-169 | a test with two components of one name, a number and a comment: under any slug function, in a new source, the row of the first stays active although the last leaf with its code is informative |
| `LimitExamples.DroppedByLabel` | globalIsc/apps/muestras/api/services/evaluation_rules.py:28-61 | a test with a number and a comment, the number named like the code of the comment: the evaluation of the number, with the id of its row and the name of its component as label, does not count |
| `LimitEvaluation.ItemCountsIff` | globalIsc/apps/muestras/api/services/evaluation_rules.py:28-61 | for every structure: an evaluation counts exactly if it has a verdict and none of its three identifiers is the code of a leaf that is left out |
| `LimitEvaluation.ActiveItemCountsIff` | globalIsc/apps/muestras/api/services/evaluation_rules.py:28-61 | with distinct codes and an active row the field never stands in the way, so only the id and the label matter |
| `Evaluation.IgnoredFields` | globalIsc/apps/muestras/api/services/evaluation_rules.py:40-51 | the loop collects exactly the ignored identifiers |
| `Evaluation.OutcomesByGroup` | globalIsc/apps/muestras/api/services/evaluation_rules.py:140-153 | the outcomes of the groups in order of first occurrence, each labelled by its last item |
| `Evaluation.AggregateEvaluations` | globalIsc/apps/muestras/api/services/evaluation_rules.py:116-186 | the grouping and summing loops compute `Aggregate` on every list, policy and configuration |
| `EvaluationFields.IgnoredIff` | globalIsc/apps/muestras/api/services/evaluation_rules.py:39-51 | which identifiers are ignored, said on the fields of the configuration |
| `EvaluationFields.StateByFields` | globalIsc/apps/muestras/api/services/evaluation_rules.py:54-186 | state and verdict for all items, policies and configurations, said on the fields of the items: missing information first, then the policy, then red, where a failure in a result without any state counts as red, then yellow |
| `EvaluationFields.WorstStateByFields` | globalIsc/apps/muestras/api/services/evaluation_rules.py:54-186 | if every failure that counts is yellow or red: critical if and only if some item that counts is `CRITICO` or `FUERA_DE_LIMITE`, undesired if and only if none is and some is `NO_DESEADO` |
| `EvaluationFields.CountsByFields` | globalIsc/apps/muestras/api/services/evaluation_rules.py:82-186 | every number of the outcome as a number of positions of items, or of first items of results |
| `EvaluationFields.ResultsByFields` | globalIsc/apps/muestras/api/services/evaluation_rules.py:105-154 | one result for each first item, in that order, each with its key, the title of its last item, and the state and numbers of exactly its own items |
| `EvaluationFields.CriticalByFields` | globalIsc/apps/muestras/api/services/evaluation_rules.py:160-180 | the critical results are listed again by key, in order, unless nothing counts |
| `EvaluationTheorems.GroupsPartition` | globalIsc/apps/muestras/api/services/evaluation_rules.py:130-142 | grouping neither loses nor repeats an item: every count over the items is the sum of the counts over the groups |
| `EvaluationTheorems.AggregateVerdict` | globalIsc/apps/muestras/api/services/evaluation_rules.py:116-186 | state, `passed` and all counts as a function of totals over the items and over the groups |
| `EvaluationTheorems.GroupedAgainstFlat` | globalIsc/apps/muestras/api/services/evaluation_rules.py:54-186 | for arbitrary items: `passed`, passed, evaluated and yellow counts agree with the flat verdict, the grouped state is never milder, and the states (and the red counts) differ exactly when a group fails without a yellow or red item while there is yellow (or any colour) elsewhere |
| `EvaluationTheorems.GroupedRefinesFlat` | globalIsc/apps/muestras/api/services/evaluation_rules.py:54-186 | for well-formed items the grouped and the flat verdict agree in full |
| `EvaluationTheorems.WorstStateWins` | globalIsc/apps/muestras/api/services/evaluation_rules.py:155-186 | for well-formed items each state of the verdict holds if and only if the items that call for it are there, the worst winning |
| `EvaluationTheorems.HiddenFailure` | globalIsc/apps/muestras/api/services/evaluation_rules.py:77-173 | whenever a silent group meets yellow elsewhere, the flat verdict is `NO_DESEADO` and the grouped one `CRITICO` |
| `EvaluationTheorems.SilentPairExists` | globalIsc/apps/muestras/api/services/evaluation_rules.py:77-173 | two concrete items, one of them a failure with a neutral state, on which the two verdicts differ |
| `EvaluationInvariance.OrderDoesNotMatter` | globalIsc/apps/muestras/api/services/evaluation_rules.py:116-186 | permuting the items changes neither state, `passed` nor any count |
| `EvaluationInvariance.OnlyCountingItemsMatter` | globalIsc/apps/muestras/api/services/evaluation_rules.py:40-186 | deleting every item that is ignored or not comparable, unless it is missing technical information, changes nothing |
| `EvaluationInvariance.AddingImprovesIff` | globalIsc/apps/muestras/api/services/evaluation_rules.py:116-186 | adding a comparable item improves an evaluated verdict if and only if the item is yellow, joins a silently failing group, and no other group is critical |
| `EvaluationInvariance.AddingCanImprove` | globalIsc/apps/muestras/api/services/evaluation_rules.py:77-173 | two concrete items: the first alone is `CRITICO`, both together `NO_DESEADO` |
| `EvaluationInvariance.AddingNeverImproves` | globalIsc/apps/muestras/api/services/evaluation_rules.py:116-186 | so for well-formed items an added comparable item never improves an evaluated verdict |
| `BusinessCalendar.AddBusinessDays` | globalIsc/apps/dashboard/api/services/operational_center.py:66-73 | the loop ends and returns the closed form by weeks, remainder and weekend correction |
| `BusinessCalendar.BusinessDaysBetween` | globalIsc/apps/dashboard/api/services/operational_center.py:76-86 | the loop ends in both directions and returns the signed count of weekdays in the half-open interval towards `end` |
| `BusinessCalendar.AfterIsCounted` | globalIsc/apps/dashboard/api/services/operational_center.py:66-73 | for a positive number of days the closed form is a weekday after `start` with that many weekdays up to it |
| `BusinessCalendar.CountedIsUnique` | globalIsc/apps/dashboard/api/services/operational_center.py:66-73 | there is only one weekday with a given count, so these two properties determine the date |
| `BusinessCalendar.DifferenceOfSum` | globalIsc/apps/dashboard/api/services/operational_center.py:66-86 | the difference to a date obtained by adding business days is that number |
| `BusinessCalendar.SumOfDifference` | globalIsc/apps/dashboard/api/services/operational_center.py:66-86 | adding the difference back gives the last weekday after `start` up to `end`, or `start` if there is none |
| `BusinessCalendar.DifferencesAdd` | globalIsc/apps/dashboard/api/services/operational_center.py:76-86 | differences over adjacent intervals add up |
| `BusinessCalendar.ThereAndBack` | globalIsc/apps/dashboard/api/services/operational_center.py:76-86 | a difference and its reverse cancel except for the weekday status of the two ends |
| `BusinessCalendar.UrgencyMeansDate` | globalIsc/apps/dashboard/api/services/operational_center.py:89-162 | for an open batch that runs under a service level, in both day modes: overdue if and only if today is past the due date, due today if and only if it is that date, and in business mode the due date is a weekday |
| `BusinessCalendar.WeekIs` | globalIsc/apps/dashboard/api/services/operational_center.py:68-75 | day 1 is a Monday and every week has five weekdays and then two others |
| `BusinessCalendar.DueDateIs` | globalIsc/apps/dashboard/api/services/operational_center.py:104-152 | mode, due date, days remaining and level of a running batch: in business mode a weekday with exactly the promised number of weekdays after reception, in calendar mode reception plus the days promised; what remains is counted in the same days, and `Proximo` means one or two |
| `BusinessCalendar.OtherBatches` | globalIsc/apps/dashboard/api/services/operational_center.py:92-140 | without a level there is no date; before reception only the level is known; a closed batch keeps the date it had while open |
| `BusinessCalendar.UrgencyNeverEases` | globalIsc/apps/dashboard/api/services/operational_center.py:89-459 | as today advances the due date stays, the days remaining never increase and the queue rank never moves back |
| `CivilDate.OrdinalsCompare` | globalIsc/apps/dashboard/api/services/operational_center.py:248-251 | the day number of a civil date orders dates as year, month and day do, and tells them apart |
| `CivilDate.PlusOrdinal` | globalIsc/apps/dashboard/api/services/operational_center.py:244 | adding days to a civil date adds them to its day number and keeps it a date |
| `CivilDate.PreviousOrdinal` | globalIsc/apps/dashboard/api/services/operational_center.py:245 | stepping one day back from any date but the first |
| `CivilDate.MonthEnd` | globalIsc/apps/dashboard/api/services/operational_center.py:243-245 | day 28 plus four days, back to day 1, minus one day is the last day of the month, in every month and year |
| `CivilDate.PeriodBounds` | globalIsc/apps/dashboard/api/services/operational_center.py:236-251 | the bounds select exactly the dates of the day, month or year of today, or what was asked for explicitly |
| `AssetNodes.EnsureRootResult` | globalIsc/apps/activesTree/services.py:10-39 | the company is left with exactly one root, named after it; other companies' roots and all other rows stay, and only children of a removed root move, to the kept one |
| `AssetNodes.EnsureRootKeepsDepth` | globalIsc/apps/activesTree/services.py:10-39 | every surviving node keeps its depth, and whether it reaches a root |
| `AssetNodes.EnsureRootKeepsAcyclic` | globalIsc/apps/activesTree/services.py:10-39 | an acyclic forest stays acyclic |
| `AssetNodes.EnsureRootTwice` | globalIsc/apps/activesTree/services.py:10-39 | doing it again chooses the same root and changes nothing |
| `AssetNodes.EnsureRootIdleIff` | globalIsc/apps/activesTree/services.py:10-39 | nothing changes if and only if the company has exactly one root already, named after it |
| `AssetTree.AssetTable.EnsureCompanyRoot` | globalIsc/apps/activesTree/services.py:10-39 | the loop over duplicate roots keeps the oldest, or creates one with the next id, and leaves the table as `EnsureNext` describes |
| `AssetTree.AssetTable.EnsureMachineNode` | globalIsc/apps/activesTree/services.py:49-74 | an existing node is returned where it is, the preferred one; otherwise one is created below the chosen folder or the root, as `Placed` describes |
| `AssetPlacement.SecondCallFindsIt` | globalIsc/apps/activesTree/services.py:49-74 | a second call, whatever folder it names, returns the node of the first and changes nothing |
| `AssetPlacement.PlacedByFields` | globalIsc/apps/activesTree/services.py:58-76 | a machine without a node gets a new row with its name, company, type and machine below the chosen folder or the root; otherwise the row returned is the one not directly under the root, then the oldest |
| `AssetPlacement.NewNodeRootedIff` | globalIsc/apps/activesTree/services.py:59-74 | a new node reaches a root if and only if no folder was chosen, or the folder did and is not a root that the same call merges away |
| `AssetExamples.NewNodeCanDangle` | globalIsc/apps/activesTree/services.py:16-74 | a table on which it does not: the chosen folder is the root that goes |
| `AssetNodes.Preferred` | globalIsc/apps/activesTree/services.py:77-94 | the node kept is the least by (directly under the root, id) |
| `AssetTree.AssetTable.ReconcileDuplicates` | globalIsc/apps/activesTree/services.py:97-132 | the whole loop on any table: the table left and the report are those of the steps `StepOf`, taken for the machines in the order they come up, each with the root of the moment and the nodes first fetched |
| `AssetMerge.RepairInClosedForm` | globalIsc/apps/activesTree/services.py:97-132 | if no company root row carries a machine, with any number of roots for each company: the roots of the companies of duplicated machines are ensured and, if applied, every duplicate is redirected at once to the node kept; the report does not depend on whether it is applied |
| `AssetRows.RepairedRows` | globalIsc/apps/activesTree/services.py:97-132 | of the rows that are no roots exactly the ones kept remain, at most one for each machine: not directly under the oldest root of the company if there is such a row, then the oldest; name, company, type and machine stay, and so does the parent unless it was merged, when it becomes the row kept, or was a root, when it becomes a root of the same company |
| `AssetRows.RepairedRoots` | globalIsc/apps/activesTree/services.py:10-132 | a company with a duplicated machine is left one root with its name, the oldest it had or a new one; the roots of other companies stay as they are, and no other row appears |
| `AssetRepair.OneNodePerMachine` | globalIsc/apps/activesTree/services.py:97-132 | each machine that had nodes has exactly one after applying, the least of those fetched by (directly under the oldest root, id) |
| `AssetRepair.ReportCounts` | globalIsc/apps/activesTree/services.py:112-123 | the report has each machine with several nodes exactly once, with its kept node and all others, one fewer than there are, and its count of merged nodes is their sum and the number of merges |
| `AssetRepair.RowsLost` | globalIsc/apps/activesTree/services.py:124-131 | applying leaves that many rows fewer than the dry run |
| `AssetRepair.RepairTwice` | globalIsc/apps/activesTree/services.py:97-132 | a repair after the repair, dry or applied, reports nothing and changes nothing |
| `AssetRepair.NothingToRepair` | globalIsc/apps/activesTree/services.py:97-132 | when no machine has two nodes, as the unique constraint on machines demands, neither mode changes a row or reports anything |
| `AssetRepair.DryRunIsIdleIff` | globalIsc/apps/activesTree/services.py:97-125 | the dry run changes no row if and only if the company of every duplicated machine has exactly one root, named after it |
| `AssetExamples.DryRunRenames` | globalIsc/apps/activesTree/services.py:36-124 | a table whose root the dry run renames |
| `AssetExamples.DryRunCreates` | globalIsc/apps/activesTree/services.py:27-124 | a table in which the dry run creates a root |
| `AssetExamples.UnderMergedRootIsPreferred` | globalIsc/apps/activesTree/services.py:17-114 | a table with two roots that the dry run merges: the machine node under the root that goes counts as not directly under the root, since its parent is read as fetched, and is the one kept |
| `AssetExamples.MergeCanCycle` | globalIsc/apps/activesTree/services.py:77-131 | a table on which the repair makes a node its own parent |
| `AssetRepair.MergeKeepsAcyclic` | globalIsc/apps/activesTree/services.py:97-132 | in the intended shape, where no machine node lies below another, an acyclic forest stays acyclic, dry run or not |
| `AssetRepair.MergeIsAcyclicIff` | globalIsc/apps/activesTree/services.py:97-132 | for a forest of any shape, the whole repair keeps it acyclic if and only if its merges form no cycle: from a duplicate to the kept node, from there up to the nearest duplicate, and so on |
| `AssetRepair.MergeKeepsRootsIff` | globalIsc/apps/activesTree/services.py:97-132 | for an acyclic forest of any shape, every surviving node that reached a root still does, if and only if every duplicate that reached one and has a surviving child leads to a root through the merges |
| `AssetRepair.MergeKeepsRootedIff` | globalIsc/apps/activesTree/services.py:97-132 | in the intended shape, cyclic elsewhere or not, the condition is that each rooted duplicate with children is merged into a rooted node |
| `AssetExamples.MergeCanStrand` | globalIsc/apps/activesTree/services.py:77-131 | a table on which the preferred node is outside the tree, and the repair cuts off what hung from its duplicate |
| `Forest.MergingOneIsAcyclicIff` | globalIsc/apps/activesTree/services.py:127-131 | merging one node into another keeps an acyclic forest acyclic if and only if the kept node does not lie below the removed one |
| `ForestContraction.NearestIs` | globalIsc/apps/activesTree/services.py:127-131 | what the nearest duplicate above a node is: a proper ancestor below every other duplicate above the node, or none at all |
| `ForestContraction.MergingIsAcyclicIff` | globalIsc/apps/activesTree/services.py:127-131 | merging any set of nodes at once keeps an acyclic forest acyclic if and only if the contracted forest of the merges is acyclic |
| `ForestContraction.MergingKeepsRootsIff` | globalIsc/apps/activesTree/services.py:127-131 | the rooted condition for any set of merges on an acyclic forest |
| `Forest.MergingKeepsRootedIff` | globalIsc/apps/activesTree/services.py:127-131 | the rooted condition for any set of merges in which no merged node lies below another |
| `AssetPath.EndingWalkDoesNotReturn` | globalIsc/apps/activesTree/api/serializers/index.py:46-52 | where the parents come to an end the walk never meets a row it has visited, so the visited set stops it on cycles only |
| `AssetSplice.RemoveInactive` | globalIsc/apps/activesTree/migrations/0016_remove_inactive_machine_tree_nodes.py:4-13 | the loop, with parents read from the rows as fetched, computes `Spliced` |
| `AssetSplice.SplicedIsCleared` | globalIsc/apps/activesTree/migrations/0016_remove_inactive_machine_tree_nodes.py:4-13 | exactly the rows of inactive machines go; every other row keeps its name, company, type and machine, and its parent unless that went; a table without inactive machines stays |
| `AssetSplice.NoneLeftDanglingIff` | globalIsc/apps/activesTree/migrations/0016_remove_inactive_machine_tree_nodes.py:4-13 | no surviving node points to a removed one, if and only if ids increase along every chain of inactive nodes above a survivor |
| `AssetSplice.SplicingKeepsAncestors` | globalIsc/apps/activesTree/migrations/0016_remove_inactive_machine_tree_nodes.py:4-13 | then the ancestor relation between surviving nodes is unchanged |
| `AssetSplice.SplicingKeepsAncestorsIff` | globalIsc/apps/activesTree/migrations/0016_remove_inactive_machine_tree_nodes.py:4-13 | on an acyclic forest the same order is necessary: without it some survivor loses the end of its walk up |
| `AssetSplice.NoInactiveParentIsOrdered` | globalIsc/apps/activesTree/migrations/0016_remove_inactive_machine_tree_nodes.py:4-13 | no inactive node directly below another is enough for that order |
| `AssetSplice.SplicingCanDangle` | globalIsc/apps/activesTree/migrations/0016_remove_inactive_machine_tree_nodes.py:4-13 | a table with two inactive machines, one below the older one, that is left with a dangling parent |
| `AssetPath.WalkUp` | globalIsc/apps/activesTree/api/serializers/index.py:43-52 | the walk ends on every table, cyclic or dangling, and visits each row at most once |
| `AssetPath.AssetLocation` | globalIsc/apps/activesTree/api/serializers/index.py:34-53 | the path is read off the oldest node of the machine within its company, from the top down, and where the parents come to an end it names exactly the proper ancestors of that node |
| `AssetPath.WalkIsAncestors` | globalIsc/apps/activesTree/api/serializers/index.py:43-53 | where the parents end, the rows visited are exactly the start and its ancestors |
| `AssetPath.PathByParents` | globalIsc/apps/activesTree/api/serializers/index.py:46-53 | a path is the path of the parent, a slash between spaces, and the name of the parent; empty when nothing is above |
| `PointAssignments.AssignmentTable.AssignOne` | globalIsc/apps/activesTree/api/views/index.py:495-516 | one sample: nothing if it is already at the point, else its current row is closed and one added |
| `PointAssignments.AssignmentTable.Organize` | globalIsc/apps/activesTree/api/views/index.py:463-544 | the whole call with its refusals, which change nothing, and its response lists |
| `PointAssignments.AssignKeepsValid` | globalIsc/apps/activesTree/api/models/index.py:158-175 | one active row for each sample at most, active if and only if without end, is kept, and the sample ends up at the point |
| `PointAssignments.AssignAllResult` | globalIsc/apps/activesTree/api/views/index.py:493-531 | every eligible sample ends with its active assignment at the point; no row is deleted or rewritten except to close it; other samples keep their current row |
| `PointAssignments.OneActiveRow` | globalIsc/apps/activesTree/api/models/index.py:158-166 | under the constraints a sample assigned to a point has exactly one active row, and it is to that point |
| `PointAssignments.MovedIff` | globalIsc/apps/activesTree/api/views/index.py:500-531 | a sample is reported as assigned if and only if it was elsewhere at the start, and as unchanged if and only if it was there |
| `PointAssignments.EligibleIff` | globalIsc/apps/activesTree/api/views/index.py:468-490 | the eligible samples are exactly the chosen ones of the point's machine, and the omitted ones exactly the chosen ones of other machines |
| `PointAssignments.ResponseIff` | globalIsc/apps/activesTree/api/views/index.py:463-544 | the whole call, sample by sample: assigned if and only if it was chosen, belongs to the machine and was elsewhere; unchanged if and only if it was there; omitted if and only if it belongs to another machine; and where it ends |
| `PointHistory.AssignAllByFields` | globalIsc/apps/activesTree/api/views/index.py:493-531 | row by row: a row stays or is ended now, the latter exactly if it is the active row of a listed sample for another point; one new row for each listed sample not at the point, with point, user, time and origin |
| `PointHistory.ResponseByFields` | globalIsc/apps/activesTree/api/views/index.py:468-544 | the three lists of the response and the number requested, on the fields of samples and rows, each list in the order of the samples |
| `PointAssignments.ResponseAddsUp` | globalIsc/apps/activesTree/api/views/index.py:486-544 | assigned, unchanged and omitted add up to requested, and the rows grow by the number assigned |
| `PointAssignments.AssignAllTwice` | globalIsc/apps/activesTree/api/views/index.py:493-531 | repeating the call adds nothing |
| `CatalogEditions.CatalogTables.FindCurrent` | globalIsc/apps/misc/management/commands/reconcile_catalog_versions.py:42-109 | the valid current edition, or else the latest active one |
| `CatalogEditions.LatestActiveVersion` | globalIsc/apps/misc/management/commands/reconcile_catalog_versions.py:104-109 | the greatest active edition by (number, id), or none |
| `CatalogEditions.CatalogTables.RepairOne` | globalIsc/apps/misc/management/commands/reconcile_catalog_versions.py:41-83 | one catalog: the totals are the same dry or applied, the dry run changes nothing, and applying fails exactly on a code clash |
| `CatalogEditions.CatalogTables.Handle` | globalIsc/apps/misc/management/commands/reconcile_catalog_versions.py:33-89 | the totals are those of the tables at the start, dry or applied; applying fails if and only if some catalog has a code clash, and then nothing changes |
| `CatalogEditions.OthersUnaffected` | globalIsc/apps/misc/management/commands/reconcile_catalog_versions.py:40-83 | repairing one catalog changes neither the current edition nor the totals of any other |
| `CatalogEditions.RepairKeeps` | globalIsc/apps/misc/management/commands/reconcile_catalog_versions.py:41-83 | both unique constraints are kept, no versioned item moves, no edition changes, and the catalog has a valid current edition |
| `CatalogEditions.NothingLeft` | globalIsc/apps/misc/management/commands/reconcile_catalog_versions.py:41-83 | a repaired catalog has nothing left to move or create, the same conflicts, and cannot clash |
| `CatalogFields.CurrentByFields` | globalIsc/apps/misc/management/commands/reconcile_catalog_versions.py:46-110 | the edition in use is the current one if usable, else the newest usable one by number and id, if any |
| `CatalogFields.TotalsByFields` | globalIsc/apps/misc/management/commands/reconcile_catalog_versions.py:64-80 | what is reported, on the rows: items without edition whose code is free in the edition in use, whether an edition is missing, and the codes that are taken; applying fails if and only if two of these items share a code |
| `CatalogFields.RepairByFields` | globalIsc/apps/misc/management/commands/reconcile_catalog_versions.py:49-83 | the repaired catalog, row by row: a missing edition is created active and numbered one above the highest, exactly the items reported get the edition in use, and nothing else changes |
| `CatalogFields.RunByFields` | globalIsc/apps/misc/management/commands/reconcile_catalog_versions.py:44-83 | after a run over the catalogs listed exactly the items reported have the edition that is current now, and every other item and catalog is as it was |
| `CatalogFields.SumByFields` | globalIsc/apps/misc/management/commands/reconcile_catalog_versions.py:38-88 | the three totals are the number of items to move, of catalogs without an edition, and of pairs of catalog and taken code |
| `CatalogEditions.RunFacts` | globalIsc/apps/misc/management/commands/reconcile_catalog_versions.py:40-83 | for a run over any catalogs in any order: the constraints hold at the end and every catalog is as at the start or repaired |
| `CatalogEditions.ApplySucceedsWith` | globalIsc/apps/misc/management/commands/reconcile_catalog_versions.py:32-89 | after applying, every catalog has an active, undeleted current edition of its own |
| `CatalogEditions.SecondRunIsIdle` | globalIsc/apps/misc/management/commands/reconcile_catalog_versions.py:32-89 | a second run reports nothing repaired or created, the same conflicts, and cannot fail |
| `CatalogEditions.SecondRunChangesNothing` | globalIsc/apps/misc/management/commands/reconcile_catalog_versions.py:32-89 | a second run leaves every table as it is |
| `CatalogEditions.ClashExample` | globalIsc/apps/misc/management/commands/reconcile_catalog_versions.py:69-83 | two unversioned items with one code: the dry run reports both as repairable where applying violates the constraint |
| `Invitations.InvitationService.CreateInvitation` | globalIsc/apps/users/api/services.py:495-572 | the steps compute `Create`, and every failure leaves all tables unchanged |
| `Invitations.InvitationService.AcceptInvitation` | globalIsc/apps/users/api/services.py:618-687 | the steps compute `Accept`, and every failure leaves all tables unchanged |
| `Invitations.InvitationService.EnsureUserProfile` | globalIsc/apps/users/api/services.py:481-492 | one profile is created or updated, its block data kept, activated only when active |
| `InvitationWrites.CreateSucceedsIff` | globalIsc/apps/users/api/services.py:502-537 | a create succeeds if and only if the role fits the company and an account of another company may be moved; which refusal in every other case |
| `InvitationWrites.CreateWritesAccount` | globalIsc/apps/users/api/services.py:520-529 | an existing account stays as it is; a new one belongs to the company, without password, inactive and unverified, with the role of the invitation |
| `InvitationWrites.CreateWritesProfile` | globalIsc/apps/users/api/services.py:558-570 | only the profile of account and company is written: the role and administrator flag asked for, pending unless it was active and the account is, block data kept |
| `InvitationWrites.CreateWritesInvitations` | globalIsc/apps/users/api/services.py:514-556 | every column of the new invitation; those pending for the e-mail up to case and the company are revoked now and no other changes |
| `InvitationWrites.AcceptSucceedsIff` | globalIsc/apps/users/api/services.py:620-669 | an accept succeeds if and only if the invitation is open, can have an account, and a password is given where one is required; which refusal in every other case |
| `InvitationWrites.AcceptWritesAccount` | globalIsc/apps/users/api/services.py:629-669 | every field of the account after an accept, and no other account changes |
| `InvitationWrites.AcceptWritesProfiles` | globalIsc/apps/users/api/services.py:638-677 | the profile in the company of the invitation is active now with its role and administrator flag; a transfer removes the other profiles of the account; no other profile changes |
| `InvitationWrites.AcceptWritesInvitation` | globalIsc/apps/users/api/services.py:678-680 | only the accepted invitation changes: it is accepted now, for the account |
| `InvitationWrites.ResendByFields` | globalIsc/apps/users/api/views/security.py:330-345 | a resend succeeds if and only if the role still fits and an account elsewhere may be moved, which needs a transfer and a caller who may transfer; the old invitation is revoked now and the new one says the same with the new expiry |
| `InvitationWrites.RunsTraceAdmins` | globalIsc/apps/users/api/services.py:502-677 | over every run an account is administrator of a company only if it was at the start, an invitation pending at the start granted it, or a create of the run asked for it |
| `Invitations.InvitationService.RevokeInvitation` | globalIsc/apps/users/api/views/security.py:351-359 | the endpoint revokes an invitation whatever its status and touches nothing else |
| `Invitations.InvitationService.ResendInvitation` | globalIsc/apps/users/api/views/security.py:330-345 | resending revokes the old invitation and creates one from it; when creating fails the old one stays revoked |
| `InvitationRuns.ResendIsTwoSteps` | globalIsc/apps/users/api/views/security.py:330-345 | a resend, successful or not, is a run of a revocation and a creation, so every result about runs covers it |
| `InvitationRuns.RunsKeepOnePending` | globalIsc/apps/users/api/services.py:514-518 | over every run of creates, accepts and revocations from any tables, two invitations are pending for one e-mail up to case and company only if both were at the start |
| `InvitationRuns.RunsTraceRoles` | globalIsc/apps/users/api/services.py:502-677 | over every run, whatever roles the tables hold at the start, a profile keeps the role it had, or has one in the scope of its company, or the one that an invitation pending at the start promised for it |
| `InvitationRuns.WrittenRolesFit` | globalIsc/apps/users/api/services.py:502-677 | if the roles of pending invitations fit their companies they always do, and every profile that a run adds or gives another role has a role in the scope of its company; profiles with global or no role may be there |
| `InvitationRuns.CompanyChangesOnlyByAccept` | globalIsc/apps/users/api/services.py:520-669 | an account whose company changed over a run had it changed by a successful accept of an invitation to that company; the lemma names the step |
| `InvitationRuns.CreateLeavesOnePending` | globalIsc/apps/users/api/services.py:514-556 | after a create the new invitation is the one pending for that e-mail and company, existing accounts are untouched, and the password flag says whether one is missing |
| `InvitationRuns.TransferRemovesOthers` | globalIsc/apps/users/api/services.py:638-677 | an accepted transfer leaves the profile of its company active and every other profile of the account removed, other accounts' profiles unchanged |
| `InvitationProfiles.AcceptLeavesOneActiveIff` | globalIsc/apps/users/api/services.py:638-677 | an accept leaves the account active in one company if and only if it is a transfer or the account was active in no other company |
| `InvitationProfiles.CreateActivatesNothing` | globalIsc/apps/users/api/services.py:558-570 | creating an invitation activates no profile, so it keeps an account active in one company at most |
| `InvitationProfiles.TwoActiveProfiles` | globalIsc/apps/users/api/services.py:495-687 | a run of four calls that leaves an account active in two companies: reinvited, invited elsewhere, the transfer accepted and then the older invitation |
| `InvitationRuns.RunsKeepHistory` | globalIsc/apps/users/api/views/security.py:330-363 | over every run no invitation disappears and none becomes pending again; one that is no longer pending stays as it is if nobody revokes it, and otherwise ends revoked, even after being accepted |
| `InvitationRuns.ClosedIsNotAccepted` | globalIsc/apps/users/api/services.py:626-627 | once an invitation is accepted, revoked or expired no later call of a run accepts it |
| `InvitationRuns.AcceptedAtMostOnce` | globalIsc/apps/users/api/services.py:618-680 | in every run each invitation is accepted at most once, whatever is called in between |
| `InvitationRuns.NoPasswordIff` | globalIsc/apps/users/api/services.py:657-669 | an accept leaves its account without a password if and only if the invitation waives one and the account has none |
| `InvitationRuns.RunsKeepPasswords` | globalIsc/apps/users/api/services.py:537-669 | over every run that starts with no password waived for an account without one, no account loses its password and every account that an accept activates has one |
| `InvitationRuns.ReinvitationKeepsPassword` | globalIsc/apps/users/api/services.py:537-669 | an account with a password accepts a reinvitation without giving one and keeps it |
| `InvitationRuns.NewAccountNeedsPassword` | globalIsc/apps/users/api/services.py:541-668 | a new account cannot accept without a password, and the attempt changes nothing |

## Left out

- AddingNeverImproves: for a verdict that was already evaluated; an item that makes the first comparable one turns `NO_EVALUABLE` into a verdict.
- RuleRecoveredOnReturn: for a leaf evaluated before it was removed, since an informative leaf has no row of its own to recover from.
- RepairInClosedForm: assumes that no company root row carries a machine, which no constraint forbids, and so do the results of `AssetRepair` and `AssetRows`. Otherwise a company root can be removed in mid-loop as a duplicate of its machine, and only the step-by-step contract of `ReconcileDuplicates` applies.
- ReconcileDuplicates: ids are handed out in increasing order.
- RemoveInactive: the ids in use lie below the next one to be handed out.
- Handle: the integrity error of the database is modelled as a failed result that restores the tables at the start.
- Text: slugify, strip, the rendering of values that are not strings, e-mail normalisation and case folding are parameters; labels, messages and audit events are not modelled.
- Order of the structure: results, divisions and components are given in the order in which the queries return them.
- Shapes of stored JSON: a configuration is an object and `informativos` a list, as the code requires; column lengths are not modelled.
- Parent ids: the column is text; `-1` is the constant for no parent and every value that names no row is a dangling id.
- Time: clocks are parameters, dates are unbounded upwards, `updated_at` is not modelled.
- Accounts: users are keyed by normalised e-mail; deleting users, roles or companies is not modelled, nor is e-mail delivery.
- RunsTraceRoles: roles and companies stay as they are during a run; editing the scope of a role or setting the role of a profile directly is not a call of the run.
- RunsKeepHistory: editing the address, company, role or expiry of an invitation through the generic update endpoint is not a call of the run.
- Permissions: access to a company is a parameter of `Organize`; permission tables, the checks of an endpoint before it acts and workflow gating are finite data.
- Generic create, update and delete endpoints: they write single fields directly and are outside the operations modelled.
- `failed_weight` of a verdict, which is constant; the unused parameters `minimum` and `result_rules`.
- The limit engine, reports, imports, settings and other input and output are not part of this model.
- Concurrency: every transaction is one step.
