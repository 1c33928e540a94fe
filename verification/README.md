# Deployment planning, permission migration and publishing: a verified model

This project models the deployment tooling of the repository and proves what it promises.

- **Deployment planner.** Stacks of a Stackfile depend on each other. The planner validates references, finds cycles with
  Kahn's algorithm, cuts the stack graph into stages by longest-path depth, closes a requested subset over its
  dependencies, and projects the stack graph onto groups to obtain waves that a Makefile sweep deploys side by side.
  Modules: `Stackfile`, `Digraph`, `Kahn`, `LongestPaths`, `Planner`, `Closures`, `Waves`, `WaveWitness`, `Sweep`,
  `NameVariables`.
- **IAM permission migration.** Drops `logs:CreateLogGroup` from the execution roles of Lambda functions, one API call at a
  time, and replaces a managed policy by a scoped grant. Modules: `RolePolicies`, `RoleMigration`.
- **Output collection and redaction.** One script merges stack outputs into a JSON file and records the paths of private
  ones; another deletes those paths from the published copy. Modules: `JsonTrees`, `JsonDicts`, `Redaction`, `Publishing`,
  `Retention`.
- **Asset publishing.** Assets are copied to versioned keys and templates are rewritten, in place, to refer to them.
  Modules: `TextEdits`, `ToolkitBuckets`, `ToolkitReruns` and `BucketNames` (the substitution of toolkit bucket references),
  `AssetUpload`, `AssetTemplates` (what the rewriting means), `AssetReruns` (when repeating it changes nothing),
  `AssetOrders` (when the order of the uploads shows), `TemplateNodes` and `InPlaceRewriting` (how it is carried out).
- **Smaller parts.** Index pages over S3 keys (`SlashPaths`, `IndexPages`), the two resolvers of template names and the log
  group sweep (`TemplateNames`), the cache of API resources (`ApiResources`). `Results` and `Ordering` are shared helpers.

Code that updates variables in loops is a method with invariants; `filter_sensitive_data` and `rewrite_obj` are methods on
heap trees; the role and the resource registries are classes. What they compute is a specification function or predicate,
and the main results are lemmas about those.

## What the proofs found

These hold of the code as it is; each is a lemma below.

- The cycle test of `group_waves` counts groups that received a depth, and a group receives one as soon as a single
  prerequisite is dequeued. So it rejects exactly when some group has prerequisites and all of them reach a cycle. A
  Stackfile with four stacks and a cyclic projection is accepted (`WaveWitness.CyclicGroupsAccepted`), and its sweep has a
  run that deploys a stack before its dependency (`WaveWitness.AcceptedYetUnsafe`). Counting dequeued groups instead would
  decide the question (`WaveWitness.DequeuedCountDecides`). The comment at `scripts/cfn_stack_parser.py:619-622` claims more
  than the code does.
- The sweep is safe over all runs if and only if every dependency of a grouped stack is grouped and the projection is
  acyclic (`Sweep.SweepSafety`).
- `resolve_stacks` looks up dependencies before references are validated; an undeclared one is a `KeyError`
  (`Closures.ResolveStacks`).
- `strip_action` drops the action from `Deny` statements as well, so a migrated role can be permitted what it was denied
  (`RoleMigration.LiteralDenialIsLost`). Writing the scoped policy also replaces an inline policy of that name, with its
  `Deny` statements. `RoleMigration.MigrationEffect` says for every request exactly when a permission is lost or gained.
- An entry stored by an earlier run is published whole exactly when the run does not refresh it, which happens to a
  multi-region stack that no region answers for: its private paths are no longer recorded. A refreshed entry shows nothing
  of what was stored, save that a null may stay (`Retention.StoredEntryDichotomy`, with the witness
  `Retention.SecretResurfaces`).
- Every asset is served, in every order in which uploads complete, if and only if no two assets with different contents
  share a new key and the store holds nothing else there; with a clash some asset is served wrong in every order
  (`AssetUpload.AllKeysServedIff`).
- In a join segment only the mentioned key that the map lists last is replaced. The map lists keys whose asset was in the
  store first and uploaded keys after them, in the order in which the uploads complete. All completion orders give one
  template if and only if in each visited segment the uploaded keys it mentions would rewrite it alike
  (`AssetOrders.UploadOrderFreeIff`). Two plain keys uploaded in one run are enough to break it
  (`AssetOrders.UploadOrderShows`); a run that uploads nothing cannot (`AssetOrders.NothingUploadedIsOrderFree`).
- Passes 1 to 3 are idempotent on all templates if and only if the bucket name is inert or itself a toolkit reference
  (`AssetReruns.FirstPassesIdempotentIff`). That the name is not matched by the toolkit pattern is not enough: `cdk-foo`
  turns a reference followed by the tail of another into a new reference (`BucketNames.FooBucket`). Derived names are inert
  (`BucketNames.PublishingBucketIsInert`).
- Rewriting a template again changes nothing if and only if every visited segment and substitution is settled
  (`AssetReruns.RewriteTwice`). With keys without slashes, a segment is settled exactly when it mentions no key; one that
  does grows on every run (`AssetReruns.UploadedTwiceIff`, `AssetReruns.PartGrows`).
- The prefix that stands for an unresolved log group name can be empty, and then every group starts with it; that takes an
  empty separator and only empty leading strings (`TemplateNames.HeadTextEmptyIff`).
- An accepted stack name can resolve to a name that again contains a placeholder, unless the region value has a character
  outside `[A-Z_]` (`NameVariables.ResolvedNamesCleanIff`).
- With a prefix of two or more folders and nothing uploaded, a breadcrumb leads nowhere (`IndexPages.BreadcrumbsLandIff`).

## Model

| member | source | states |
|---|---|---|
| Stackfile.CheckStack | scripts/cfn_stack_parser.py:400-417 | the errors of one stack are exactly its unknown dependencies and its parameters that refer to unknown stacks |
| Stackfile.ValidateReferences | scripts/cfn_stack_parser.py:391-423 | succeeds iff every dependency and every cross-stack reference names a declared stack; otherwise reports exactly the broken ones |
| Stackfile.StackGraphMeaning | scripts/cfn_stack_parser.py:437-447 | an edge of the dependency graph is a known id in the `depends_on` of some stack with that id |
| Kahn.LinkStacks | scripts/cfn_stack_parser.py:439-447 | adjacency lists and in-degrees count every declared edge of the graph, duplicates included |
| Kahn.ReleaseDependents | scripts/cfn_stack_parser.py:459-462 | telling every dependent of a dequeued node keeps the worklist invariant: in-degrees are the prerequisites left, and the queue holds exactly the ready nodes |
| Kahn.SettleNext | scripts/cfn_stack_parser.py:456-462 | one turn of the loop extends a topological order by the head of the queue |
| Kahn.DrainedIsGrounded | scripts/cfn_stack_parser.py:456-467 | when the queue runs empty, what was dequeued is exactly what cannot reach a cycle |
| Kahn.Drain | scripts/cfn_stack_parser.py:456-462 | the drained order is distinct, topological, and holds exactly the nodes that cannot reach a cycle |
| Kahn.SortedOrderSize | scripts/cfn_stack_parser.py:464 | comparing the length of the order with the number of stacks decides whether ids are distinct and the graph is acyclic |
| Kahn.DetectCycles | scripts/cfn_stack_parser.py:430-471 | returns iff ids are distinct and the graph of known ids is acyclic; the order is then a permutation with dependencies first, otherwise the reported nodes are exactly those from which `depends_on` can reach a cycle |
| Digraph.TrappedReachesCycle | scripts/cfn_stack_parser.py:464-467 | nodes that each keep a prerequisite among themselves all reach a cycle |
| Digraph.ExhaustedSortIsGrounded | scripts/cfn_stack_parser.py:456-467 | what an exhausted topological sort leaves out is exactly what reaches a cycle |
| Digraph.AcyclicIffGrounded | scripts/cfn_stack_parser.py:464-471 | a graph is acyclic iff no node reaches a cycle |
| LongestPaths.LinkPrereqs | scripts/cfn_stack_parser.py:531-537 | adjacency and in-degrees of a prerequisite map, duplicate edges included |
| LongestPaths.RelaxDependent | scripts/cfn_stack_parser.py:548-552 | one relaxation keeps every depth attained by a prerequisite heard from and at least one more than each of them |
| LongestPaths.FinalDepths | scripts/cfn_stack_parser.py:539-554 | after the loop the depth map is the longest-chain depth on exactly the nodes without prerequisites or with a settled one |
| LongestPaths.LongestPathDepths | scripts/cfn_stack_parser.py:522-554 | for every closed prerequisite map, cyclic ones included, the result is that depth map; the dequeued nodes are exactly those that cannot reach a cycle |
| LongestPaths.AcyclicDepthsTotal | scripts/cfn_stack_parser.py:522-530 | on an acyclic map every node has a depth |
| Digraph.AcyclicDepth | scripts/cfn_stack_parser.py:522-554 | in an acyclic graph the depth of a node is the length of its longest prerequisite chain: one that long exists and none is longer |
| Digraph.DepthStep | scripts/cfn_stack_parser.py:549 | a prerequisite that cannot reach a cycle is strictly shallower |
| Digraph.DepthParent | scripts/cfn_stack_parser.py:549 | a node at positive depth has a prerequisite exactly one level above |
| Planner.DeploymentPlan | scripts/cfn_stack_parser.py:557-584 | a plan exists iff references are valid, ids distinct and the graph acyclic; it is the plan by exact depth; broken references are reported before cycles, and what is reported is exactly the broken ones, or the nodes that reach a cycle |
| Planner.CutStages | scripts/cfn_stack_parser.py:571-584 | cutting the depth map yields one stage per depth, sorted by id, with consecutive numbers and no empty stage |
| Planner.StageIsSorted | scripts/cfn_stack_parser.py:575-583 | inside a stage the ids ascend: the first position at which two of them differ decides |
| Planner.IdToLastStack | scripts/cfn_stack_parser.py:567 | of several stacks with one id the dict keeps the last |
| Ordering.LexLeqMeaning | scripts/cfn_stack_parser.py:578 | strings compare by the first position at which they differ, and a prefix comes first |
| Ordering.LexIsPreorder | scripts/cfn_stack_parser.py:578 | that order is total and transitive |
| Ordering.SortListInOrder | scripts/generate_stack_outputs.py:65-68 | sorting by a total preorder returns an ascending list; it is a permutation by the contract of the insertion |
| Planner.PlanIsSafe | scripts/cfn_stack_parser.py:557-584 | the stages partition the stacks and every dependency is in a strictly earlier stage |
| Planner.PlanIsOptimal | scripts/cfn_stack_parser.py:557-584 | no valid staging puts any stack earlier, so none has fewer stages |
| Planner.PlanUnique | scripts/cfn_stack_parser.py:571-584 | the stacks determine the plan |
| Closures.NeededIsLeast | scripts/cfn_stack_parser.py:500-512 | what is needed lies in every dependency-closed set that contains the requested stacks |
| Closures.CollectNeeded | scripts/cfn_stack_parser.py:499-512 | the worklist terminates, cyclic graphs and duplicate entries included, with exactly what the requested stacks need, or fails on a needed id that is not declared |
| Closures.ResolveStacks | scripts/cfn_stack_parser.py:478-515 | returns exactly the needed stacks in declaration order; fails iff a name is unknown, with exactly those names, or else a needed id is undeclared; with distinct names every requested stack is returned, and exactly the stacks that are needed from the ids declared under the requested names |
| Closures.RequestedAreResolved | scripts/cfn_stack_parser.py:490-515 | with distinct names the needed stacks contain every stack whose name is requested and are exactly what those stacks need |
| Closures.NameToLastId | scripts/cfn_stack_parser.py:490 | a name stands for its own stack, and of several stacks with one name for the last |
| Closures.DeclaredDependencies | scripts/cfn_stack_parser.py:491-509 | with distinct ids the dependencies followed from a stack are its own `depends_on` |
| Closures.UnknownNext | scripts/cfn_stack_parser.py:494-498 | unknown names are reported as often as they are requested, in that order |
| Closures.ResolvedSelection | scripts/cfn_stack_parser.py:500-515 | with known dependencies the result is a selection closed under dependencies |
| Closures.SubsetDepths | scripts/cfn_stack_parser.py:478-584 | every stack of a dependency-closed subset has the depth it has in the full plan |
| Closures.SubsetPlannable | scripts/cfn_stack_parser.py:391-423 | the subset can be planned iff every cross-stack reference in it targets a stack in it |
| Closures.SubsetPlanAgrees | scripts/cfn_stack_parser.py:478-584 | the plan of the subset is the full plan restricted to the subset, stage by stage |
| Waves.ProjectGroups | scripts/cfn_stack_parser.py:602-615 | the prerequisites of a group are exactly the other groups some of its stacks depends on |
| Waves.OrderedGroups | scripts/cfn_stack_parser.py:707-716 | lists each group of the plan once; one group stands before another iff the place of its first stack, stage before position, is earlier |
| Waves.GroupsInPlanOrder | scripts/cfn_stack_parser.py:707-716 | the first appearances in the concatenated stages are that order, stated on stages and positions |
| Waves.WaveFollowsPlan | scripts/cfn_stack_parser.py:630-635 | inside a wave, too, the groups stand in the order of the places at which the plan first shows them |
| Waves.StrandedMeaning | scripts/cfn_stack_parser.py:546-554 | a group gets no depth iff it has prerequisites and all of them reach a cycle |
| Waves.GroupWaves | scripts/cfn_stack_parser.py:587-635 | succeeds iff the stacks can be planned and no group is stranded, else names exactly the stranded groups; wave d lists the groups of depth d in the order of the flat plan |
| Waves.WavesCoverFlatPlan | scripts/cfn_stack_parser.py:587-635 | every group of the flat plan is in exactly one wave |
| Waves.WavesAreValidAndOptimal | scripts/cfn_stack_parser.py:587-635 | when the projection is acyclic, each group is in a later wave than the groups it draws from, and no valid numbering puts a group earlier |
| WaveWitness.RejectedIff | scripts/cfn_stack_parser.py:617-628 | the exact verdict of the group cycle test |
| WaveWitness.AcyclicIsAccepted | scripts/cfn_stack_parser.py:617-628 | an acyclic projection is never rejected |
| WaveWitness.DequeuedCountDecides | scripts/cfn_stack_parser.py:546-554 | counting the nodes that `LongestPaths.LongestPathDepths` dequeues, instead of those with a depth, would decide acyclicity |
| WaveWitness.CyclicGroupsAccepted | scripts/cfn_stack_parser.py:619-628 | an acyclic Stackfile whose cyclic projection is accepted |
| Sweep.WavesExist | scripts/cfn_stack_parser.py:630-635 | every Stackfile that can be planned has waves |
| WaveWitness.FourStacksSwept | scripts/cfn_stack_parser.py:587-635 | the witness is accepted and has waves |
| WaveWitness.AcceptedYetUnsafe | scripts/cfn_stack_parser.py:587-635 | whatever its waves, the sweep of that Stackfile has an unsafe run |
| Sweep.SweepSafety | Makefile:241-265 | over every interleaving of every accepted Stackfile, no stack is deployed before something it depends on, iff dependencies of grouped stacks are grouped and the projection is acyclic |
| Sweep.NeverStuck | Makefile:241-265 | before the last wave has landed some step is possible |
| Sweep.RunsAreBounded | Makefile:241-265 | a run has at most one step per grouped stack and per wave |
| Sweep.FinalStateIsComplete | Makefile:241-265 | after the last wave every grouped stack was deployed, exactly once, and nothing else |
| Sweep.WaveIsReached | Makefile:241-265 | each wave is reached by a run that has deployed only stacks of earlier waves |
| NameVariables.ResolvesIff | scripts/cfn_stack_parser.py:84-96 | substitution succeeds iff every placeholder of the scan has a value, and names the first one that has not |
| NameVariables.PlaceholderIff | scripts/cfn_stack_parser.py:57 | a placeholder is `${`, at least one upper-case letter or underscore, and `}` |
| NameVariables.ResolveLiteral | scripts/cfn_stack_parser.py:84-96 | text in front of the next placeholder, such as text without a dollar sign, is copied |
| NameVariables.ResolvePlaceholder | scripts/cfn_stack_parser.py:84-96 | a placeholder is replaced by its value and the scan goes on behind it; without a value its name is the error |
| NameVariables.ValidatedIff | scripts/cfn_stack_parser.py:99-109 | a name is accepted iff every placeholder is `APP_REGION` |
| NameVariables.AcceptedNamesResolve | scripts/cfn_stack_parser.py:99-109 | a name accepted by the validation resolves when the region is supplied |
| NameVariables.NoPlaceholderLeft | scripts/generate_stack_outputs.py:83-88 | with values free of `$ { }` that have a character outside `[A-Z_]`, no placeholder is left |
| NameVariables.ResolvedNamesCleanIff | scripts/generate_stack_outputs.py:83-88 | that character is also necessary: no accepted name leaves a placeholder iff the region value has one |
| NameVariables.NestedName | scripts/cfn_stack_parser.py:57 | a nested placeholder is accepted and resolves to a fresh one around the value |
| NameVariables.PlainNamesKept | scripts/cfn_stack_parser.py:84-96 | a name without placeholders is unchanged |
| RolePolicies.StripAction | scripts/strip_lambda_creategroup_permission.py:199-218 | the new document and the number of affected statements; it is positive iff some statement names the action |
| RolePolicies.StripStatementExact | scripts/strip_lambda_creategroup_permission.py:206-216 | a statement that does not name the action stays; one that names nothing else goes; any other keeps its other actions in order, a single one as a bare value, and all other fields |
| RolePolicies.StripInOrder | scripts/strip_lambda_creategroup_permission.py:204-216 | statements are stripped one by one, in their order |
| RolePolicies.AffectedInBoth | scripts/strip_lambda_creategroup_permission.py:212 | every statement that names the action is counted, once |
| RolePolicies.StripKeepsVersion | scripts/strip_lambda_creategroup_permission.py:216-218 | nothing but the statements changes, and nothing at all when the action is not named |
| RolePolicies.NothingLeftIff | scripts/strip_lambda_creategroup_permission.py:212-215 | no statement is left iff every one names the action and nothing else |
| RolePolicies.TargetIgnoresCase | scripts/strip_lambda_creategroup_permission.py:208 | an action is the one to drop iff it differs from it in case only |
| RolePolicies.StripKeepsDecisions | scripts/strip_lambda_creategroup_permission.py:199-218 | no Allow or Deny about any other action changes, whatever the wildcards, conditions and NotAction statements |
| RolePolicies.StripRemovesTarget | scripts/strip_lambda_creategroup_permission.py:199-218 | the action is gone, so stripping again changes nothing |
| RolePolicies.StripLeavesWildcards | scripts/strip_lambda_creategroup_permission.py:204-216 | about the action itself exactly what other patterns say remains |
| RoleMigration.PlanRole | scripts/strip_lambda_creategroup_permission.py:221-239 | one edit per inline policy that names the action, and whether the managed policy is attached; none iff the role is absent |
| RoleMigration.ApplyEdits | scripts/strip_lambda_creategroup_permission.py:244-251 | only this role changes, by the prefix of the edit calls that succeeded |
| RoleMigration.DetachManaged | scripts/strip_lambda_creategroup_permission.py:253-266 | the scoped grant is written before the managed policy is detached |
| RoleMigration.ApplyRole | scripts/strip_lambda_creategroup_permission.py:242-266 | stopped by a failure at any call, the role is left after exactly the calls before it |
| RoleMigration.LoggingNeverLost | scripts/strip_lambda_creategroup_permission.py:253-266 | a role that may write its own log group still may after every prefix of the calls, under deny-overrides evaluation |
| RoleMigration.GoalNeverMoves | scripts/strip_lambda_creategroup_permission.py:242-266 | the final state planned from any intermediate state is the same |
| RoleMigration.ApplyReachesGoal | scripts/strip_lambda_creategroup_permission.py:242-266 | an uninterrupted run reaches that state, whatever order the policies were listed in, and nothing remains to do there |
| RoleMigration.MigratedRole | scripts/strip_lambda_creategroup_permission.py:242-266 | what that state is: the managed policy gone, the scoped grant with its two actions on the log group if the managed policy was attached, every other inline policy stripped |
| RoleMigration.PolicyDeletedIff | scripts/strip_lambda_creategroup_permission.py:244-251 | an inline policy is deleted iff it has statements and every one names the action and nothing else |
| RoleMigration.RerunConverges | scripts/strip_lambda_creategroup_permission.py:221-266 | stopping anywhere, planning again and running to the end gives the state of an uninterrupted run |
| RoleMigration.NothingLeftIffDone | scripts/strip_lambda_creategroup_permission.py:221-239 | planning finds nothing to do iff no inline policy names the action and the managed policy is detached |
| RoleMigration.PermitsAfterMigration | scripts/strip_lambda_creategroup_permission.py:199-266 | for every request, what a migrated role permits in terms of the original role: what remains or is granted, unless something that remains denies it |
| RoleMigration.MigrationEffect | scripts/strip_lambda_creategroup_permission.py:199-266 | for every request, exactly when the migration takes a permission away and when it gives one, the overwritten scoped policy and the detached one included |
| RoleMigration.TargetAfterMigration | scripts/strip_lambda_creategroup_permission.py:199-266 | a migrated role permits the action iff something other than a literal mention or the detached policy allows it and nothing of that kind denies it |
| RoleMigration.LiteralDenialIsLost | scripts/strip_lambda_creategroup_permission.py:204-216 | a role that was denied the action and is permitted it after the migration |
| TemplateNames.RoleNameSound | scripts/strip_lambda_creategroup_permission.py:163-185 | a resolved name is what the template value evaluates to under every assignment consistent with region and defaults |
| TemplateNames.RoleNameCompleteIff | scripts/strip_lambda_creategroup_permission.py:163-185 | it resolves iff region and defaults determine the name |
| TemplateNames.SingleReference | scripts/strip_lambda_creategroup_permission.py:176-180 | a reference to the region resolves to the region, one to a parameter with a non-empty string default to that default, any other to nothing |
| TemplateNames.JoinTextsOfBoth | scripts/strip_lambda_creategroup_permission.py:181-184 | joining puts exactly one separator between any two texts |
| TemplateNames.ResolveGroupName | scripts/delete_unmanaged_lambda_log_groups.py:112-139 | an exact name iff the value is a string or a join of strings and known references, and then the one the other resolver finds; otherwise a prefix iff the join starts with a string, and then the joined leading strings and the separator, a prefix of every evaluation |
| TemplateNames.HeadTextEmptyIff | scripts/delete_unmanaged_lambda_log_groups.py:135-138 | a prefix is empty iff the separator and all leading strings are |
| TemplateNames.CollectExact | scripts/delete_unmanaged_lambda_log_groups.py:162-183 | the exact names and the prefixes are exactly those of the targets, each resolved with the parameters of its own template |
| TemplateNames.ExistingGroups | scripts/delete_unmanaged_lambda_log_groups.py:186-211 | found are the existing exact names and, only with the flag, what the prefixes match; the rest of the matches is reported apart |
| TemplateNames.Sweep | scripts/delete_unmanaged_lambda_log_groups.py:214-275 | deleted are exactly the existing groups a target names and, only with the prefix flag, those that start with the literal head of a target that is not known exactly |
| TemplateNames.SweptGroupsEvaluate | scripts/delete_unmanaged_lambda_log_groups.py:162-183 | a group named by a target is its name under every consistent assignment; a literal head starts every evaluation |
| Redaction.MarkedMeaning | scripts/generate_stack_outputs.py:62-68 | a key is private iff some output under it carries the marker, and has a value iff some output has it |
| Redaction.OutputValuesLast | scripts/generate_stack_outputs.py:63 | a key has the value of the last output under it |
| Redaction.DistinctOutputValues | scripts/generate_stack_outputs.py:63 | with distinct keys every output has its own value |
| Redaction.TargetQueries | scripts/generate_stack_outputs.py:121-130 | a target with explicit regions is asked for in each of them, in order, any other one in the default region only |
| Redaction.QueriesInOrder | scripts/generate_stack_outputs.py:121-130 | targets are asked for one after the other, in their order |
| Redaction.MultiRegionMeaning | scripts/generate_stack_outputs.py:125-127 | a name is multi-region iff some target of that name lists regions |
| Redaction.PlanQueries | scripts/generate_stack_outputs.py:121-130 | one query per explicit region, else one for the default region |
| Redaction.GenerateOutputs | scripts/generate_stack_outputs.py:145-190 | the merged document with its sorted private paths is written iff something was updated |
| Redaction.SortedPathsInOrder | scripts/generate_stack_outputs.py:175 | recorded paths are in ascending order |
| Redaction.PathLeqMeaning | scripts/generate_stack_outputs.py:175 | paths compare by the first part at which they differ, and a prefix comes first |
| JsonTrees.TreesEqual | scripts/upload_rmng_outputs.py:179-199 | documents are determined by what their paths lead to |
| JsonTrees.DeleteAllMeaning | scripts/upload_rmng_outputs.py:179-199 | a path is in the result iff it was in the input and no listed path is a prefix of it; leaves are unchanged |
| JsonTrees.DeleteAllEqualIff | scripts/upload_rmng_outputs.py:179-199 | two documents become equal iff they differ only under the listed paths |
| JsonTrees.DeleteAllOrderFree | scripts/upload_rmng_outputs.py:186-197 | order and repetition of the paths do not matter |
| JsonTrees.DeleteAllIdempotent | scripts/upload_rmng_outputs.py:179-199 | deleting again changes nothing |
| JsonDicts.Copy | scripts/upload_rmng_outputs.py:184 | the deep copy is a fresh tree with the same document |
| JsonDicts.RemoveAt | scripts/upload_rmng_outputs.py:196-197 | deleting a key of the nested dictionary reached deletes exactly that path of the whole document, in place |
| JsonDicts.DeletePath | scripts/upload_rmng_outputs.py:186-197 | walking down a path and deleting its last key is the deletion of that path, also where the walk ends early |
| JsonDicts.FilterSensitiveData | scripts/upload_rmng_outputs.py:179-199 | the result is a fresh tree with all listed paths deleted and the input is not modified; it fails iff an empty path is listed |
| Publishing.PathsRoundTrip | scripts/upload_rmng_outputs.py:161-176 | paths written by the one script are read back unchanged by the other |
| Publishing.SanitizeForUpload | scripts/upload_rmng_outputs.py:212-216 | what is published, or which refusal; succeeds iff the paths key holds a list of non-empty lists of strings; the loaded document is untouched |
| Publishing.PublishedIff | scripts/upload_rmng_outputs.py:156-176 | for every file, which of the three it is: published, no paths recorded, malformed or with an empty path |
| Publishing.PublishedAt | scripts/upload_rmng_outputs.py:179-216 | a published document has nothing under a listed path or under the key of the paths, and the rest as it was |
| Publishing.RunsAgree | scripts/generate_stack_outputs.py:149-168 | runs whose answers differ only in private values stay equal off the recorded paths |
| Publishing.FilesAgree | scripts/generate_stack_outputs.py:170-190 | both runs write or neither does, with the same recorded paths |
| Publishing.RedactionComplete | scripts/upload_rmng_outputs.py:212-216 | two runs from one file whose answers differ only in values of private outputs publish equal documents |
| Retention.TargetsGiveDistinctQueries | scripts/generate_stack_outputs.py:121-130 | distinct resolved names and distinct regions give queries that never overwrite each other |
| Retention.PathOrigin | scripts/generate_stack_outputs.py:149-160 | a recorded path belongs to a private output of a fetched stack |
| Retention.FileAfterRun | scripts/generate_stack_outputs.py:173-190 | written or not, the file records this run's paths; only dropped null entries tell it from the merged document |
| Retention.NothingWrittenIff | scripts/generate_stack_outputs.py:170-190 | the file is left alone iff nothing was fetched, no single-region entry was dropped, and it already records an empty list of paths |
| Retention.FetchedOutputs | scripts/generate_stack_outputs.py:145-178 | at the place of a fetched stack every unmarked output is published with the value of the last output under its key, and no other key is |
| Retention.GoneStackLosesEntry | scripts/generate_stack_outputs.py:163-168 | a single-region stack that is gone loses its entry; only an entry that was null already stays, iff the run writes nothing |
| Retention.StoredEntryDichotomy | scripts/generate_stack_outputs.py:149-178 | what an earlier run stored under a name is published whole when the run does not refresh it, and has no influence on what is published there when the run does; only a stored null can stay |
| Retention.PublishedWholeIff | scripts/generate_stack_outputs.py:149-172 | whatever an earlier run stored under a name is published whole, private outputs included, iff the run does not refresh it: nothing fetched has the name, and it was asked for as a multi-region stack only or not at all |
| Retention.SecretResurfaces | scripts/generate_stack_outputs.py:152-156 | a file that keeps a recorded secret back, and a run after which the same secret is published |
| AssetUpload.PlanUploads | scripts/publish_cdk_assets.py:232-272 | the keys of usable assets whose new key exists, and the other usable assets as tasks, both in the order of the manifest |
| AssetUpload.RecordedKeysMeaning | scripts/publish_cdk_assets.py:262-268 | recorded are exactly the keys of usable assets whose new key exists, each once and with its versioned key |
| AssetUpload.RecordedInOrder | scripts/publish_cdk_assets.py:242-268 | recorded keys are listed in the order in which the manifest first names them |
| AssetUpload.UsableIff | scripts/publish_cdk_assets.py:239-254 | an asset is used iff it has a source path, its file is there and its first object key is not empty |
| AssetUpload.NewKeyOf | scripts/publish_cdk_assets.py:262-263 | the new key is the version, `assets` and the file name of the old key |
| AssetUpload.NeededInBoth | scripts/publish_cdk_assets.py:265-272 | one task for each usable asset whose new key is missing, in the order of the manifest |
| AssetUpload.FinishUploads | scripts/publish_cdk_assets.py:290-299 | store and key map after the uploads complete in a given order; the key map lists keys in that order |
| AssetUpload.KeysAfterMeaning | scripts/publish_cdk_assets.py:290-299 | exactly the keys recorded before and those of completed uploads are mapped, each to the key it was uploaded under |
| AssetUpload.KeysAfterBoth | scripts/publish_cdk_assets.py:290-296 | uploads are recorded one after the other, in the order in which they complete |
| AssetUpload.KeysAfterOne | scripts/publish_cdk_assets.py:296 | a completed upload maps its old key to its new one; a key not listed yet is listed last |
| AssetUpload.LastUploadCounts | scripts/publish_cdk_assets.py:290-296 | of several uploads to one key the last to complete is what the store holds |
| AssetUpload.UploadAssets | scripts/publish_cdk_assets.py:215-301 | exactly the old keys of usable assets are mapped, each to its versioned key; the map lists the recorded keys first, then the uploaded ones in the order in which the uploads complete |
| AssetUpload.NoClashServes | scripts/publish_cdk_assets.py:262-268 | without clashes every mapped key serves its asset's content |
| AssetUpload.ClashIsServedWrong | scripts/publish_cdk_assets.py:262-299 | with a clash of new keys some asset is served wrong, however the uploads complete |
| AssetUpload.AllKeysServedIff | scripts/publish_cdk_assets.py:262-299 | for every completion order, every asset is served iff there is no clash |
| AssetUpload.NewKeyStable | scripts/publish_cdk_assets.py:262-263 | a new key is its own new key |
| TextEdits.ReplaceSame | scripts/publish_cdk_assets.py:195 | replacing a text that occurs changes nothing iff it is replaced by itself |
| TextEdits.ReplaceGrows | scripts/publish_cdk_assets.py:195 | replacing by a text that contains what it replaces leaves it there and makes the text longer |
| TextEdits.ReplaceFirst | scripts/publish_cdk_assets.py:195 | the first occurrence is replaced and the rest of the text after it likewise, so all occurrences are that do not overlap a replaced one |
| TextEdits.ContainsIff | scripts/publish_cdk_assets.py:194 | a text is contained iff it occurs at some position |
| TextEdits.BasenameOfJoined | scripts/publish_cdk_assets.py:262-263 | the base name of a key under a folder is the file name |
| AssetTemplates.RewritePart | scripts/publish_cdk_assets.py:192-195 | of the mentioned keys the last in the map decides, applied to the original text |
| AssetTemplates.NewPartMeaning | scripts/publish_cdk_assets.py:192-195 | the key listed last among those a segment mentions is replaced everywhere; a segment that mentions none stays |
| AssetOrders.SegmentOrderFreeIff | scripts/publish_cdk_assets.py:188-195 | all orders of a key map rewrite a segment alike iff all keys it mentions would rewrite it to the same text |
| AssetOrders.RewriteInOrder | scripts/publish_cdk_assets.py:157-205 | two orders rewrite a template alike iff they rewrite each visited join segment alike |
| AssetOrders.UploadsDecide | scripts/publish_cdk_assets.py:290-296 | an uploaded key decides a segment that mentions one; otherwise the keys recorded before the uploads decide |
| AssetOrders.CompletionOrderFreeIff | scripts/publish_cdk_assets.py:157-205 | all completion orders give one template iff in every visited join segment the keys uploaded in this run that it mentions would rewrite it alike |
| AssetOrders.UploadOrderFreeIff | scripts/publish_cdk_assets.py:215-301 | that equivalence for every store, manifest and version the upload step is given |
| AssetOrders.NothingUploadedIsOrderFree | scripts/publish_cdk_assets.py:265-268 | a run that uploads nothing has one template |
| AssetOrders.UploadOrderShows | scripts/publish_cdk_assets.py:290-296 | two completions of one upload after which a segment with both keys is rewritten differently |
| AssetTemplates.RewriteAt | scripts/publish_cdk_assets.py:157-205 | outside replaced buckets the shape is kept, and so is every text that is not an asset key, a substitution or a join segment |
| AssetTemplates.RewrittenText | scripts/publish_cdk_assets.py:157-205 | what every visited text becomes: a mapped asset key its new key, a substitution itself with every toolkit reference replaced by the bucket, a join segment what the deciding key makes of it, anything else itself |
| AssetTemplates.RewrittenBucket | scripts/publish_cdk_assets.py:168-170 | the bucket of a visited object is replaced iff the condition of pass 2 holds; otherwise it is rewritten like any other value, so a text stays |
| AssetTemplates.TakesBucketIff | scripts/publish_cdk_assets.py:168-170 | that condition: the key beside the bucket is a text and mapped, or already a new key |
| AssetTemplates.UnhashableIff | scripts/publish_cdk_assets.py:163 | the rewriting raises iff some visited object has a dictionary or list as key |
| AssetTemplates.WithoutBootstrapMeaning | scripts/publish_cdk_assets.py:148-152 | the two bootstrap entries are gone and nothing else is |
| AssetTemplates.AssetReferencesPreserved | scripts/publish_cdk_assets.py:161-170 | every visited reference to a mapped key names the publishing bucket and a key under which it holds the same content |
| AssetTemplates.UploadFitsRewriting | scripts/publish_cdk_assets.py:215-301 | the upload step leaves keys and store as the previous result requires |
| ToolkitBuckets.AcceptsIffMatch | scripts/publish_cdk_assets.py:29-31 | the character-by-character match finds exactly the references of the pattern |
| ToolkitBuckets.MatchIff | scripts/publish_cdk_assets.py:29-31 | a text starts with a reference iff it starts with `cdk-`, a word, and `-assets-${AWS::AccountId}-${AWS::Region}`, which is then all that is matched |
| ToolkitBuckets.NoToolkitLeft | scripts/publish_cdk_assets.py:176 | with an inert bucket name no reference is left in any text |
| ToolkitBuckets.NoToolkitLeftIff | scripts/publish_cdk_assets.py:176 | no text keeps a reference iff the bucket name is inert: every attempted match, one that runs into the name or one that starts in it, fails within the name |
| ToolkitReruns.FixedNeedsReference | scripts/publish_cdk_assets.py:176 | a text with references that the substitution leaves alone exists only when the bucket name is a reference itself |
| ToolkitReruns.SettledIff | scripts/publish_cdk_assets.py:176 | a second substitution changes a text iff the first left a reference in it and the bucket name is none |
| ToolkitReruns.IdempotentIff | scripts/publish_cdk_assets.py:176 | the substitution is idempotent on all texts iff the bucket name is inert or a whole reference |
| BucketNames.NameIsInert | scripts/publish_cdk_assets.py:472-480 | a name of lower-case letters, digits, dots and at least four hyphens, ending in a digit, whose part before the last hyphen does not end in `cdk`, is inert |
| BucketNames.PublishingBucketIsInert | scripts/publish_cdk_assets.py:480 | prefix-account-region names are inert for regions such as `us-east-1` |
| BucketNames.FooBucket | scripts/publish_cdk_assets.py:473-476 | `cdk-foo` is no reference, yet leaves one that a second run replaces |
| AssetReruns.UploadKeysStable | scripts/publish_cdk_assets.py:262-268 | whatever the old keys are, a new key that is mapped itself stays |
| AssetReruns.SegmentTwice | scripts/publish_cdk_assets.py:193-195 | a second run leaves a segment alone iff no key decides in the rewritten segment, or one that is its own new key |
| AssetReruns.RewriteTwice | scripts/publish_cdk_assets.py:157-205 | for all keys the upload makes, rewriting again changes nothing iff every visited join segment and every visited substitution is settled |
| AssetReruns.FirstPassesIdempotentIff | scripts/publish_cdk_assets.py:161-184 | passes 1 to 3 are idempotent on all templates iff the bucket name is inert or itself a toolkit reference |
| AssetReruns.InertBucketTwiceIff | scripts/publish_cdk_assets.py:157-205 | with an inert bucket name, rewriting again changes nothing iff every visited join segment is settled |
| AssetReruns.NoToolkitAfterRewrite | scripts/publish_cdk_assets.py:172-184 | with an inert bucket name no visited substitution of the rewritten template refers to a toolkit bucket |
| AssetReruns.UploadedTwiceIff | scripts/publish_cdk_assets.py:157-205 | with old keys without slashes, rewriting again changes nothing iff no visited segment mentions a key and no visited substitution keeps a toolkit reference, unless the bucket is one |
| AssetReruns.PartGrows | scripts/publish_cdk_assets.py:193-195 | a segment whose deciding key is extended by its new key, as slash-free keys are, grows and still mentions a key |
| TemplateNodes.TemplateNode.Assign | scripts/publish_cdk_assets.py:161-195 | assigning in place changes the document at exactly that place |
| InPlaceRewriting.KeyPass | scripts/publish_cdk_assets.py:161-164 | pass 1 in place; raises iff the key is a dictionary or list |
| InPlaceRewriting.JoinPartsPass | scripts/publish_cdk_assets.py:188-195 | pass 4 in place changes exactly the text segments of the join, two levels below the object |
| InPlaceRewriting.FieldThenDescend | scripts/publish_cdk_assets.py:160-203 | descending into a field after the four passes is the rewriting of that field, with the same failures |
| InPlaceRewriting.RewriteNode | scripts/publish_cdk_assets.py:157-205 | the recursion in place leaves the rewritten tree, or raises iff a visited object has a dictionary or list as key |
| InPlaceRewriting.DropNested | scripts/publish_cdk_assets.py:149-153 | deletes the nested bootstrap entry if it is there and nothing else |
| InPlaceRewriting.RewriteTemplate | scripts/publish_cdk_assets.py:134-210 | the loaded template becomes the rewriting of the template without bootstrap requirements |
| SlashPaths.JoinSplit | tools/s3_public_upload.py:121-124 | joining the split parts of a key gives the key back |
| SlashPaths.SplitJoin | tools/s3_public_upload.py:121-124 | splitting joined slash-free parts gives the parts back |
| IndexPages.CollectFolders | tools/s3_public_upload.py:113-116 | a folder is listed iff a key has it as parent, with exactly those keys in order |
| IndexPages.FilesInBoth | tools/s3_public_upload.py:113-116 | the files of a folder are listed as often as they were uploaded, in the order of the keys |
| IndexPages.FilesInOne | tools/s3_public_upload.py:115 | a key belongs to the folder above its last part only, and to the root folder when it has one part |
| IndexPages.AddSubfolders | tools/s3_public_upload.py:121-126 | one key adds the links from each folder above it to the next, never to the key itself |
| IndexPages.CollectSubfolders | tools/s3_public_upload.py:119-126 | the links are exactly the parent and child folders that some key goes below |
| IndexPages.GenerateIndex | tools/s3_public_upload.py:107-139 | pages exist exactly for folders with files, with links, and for the prefix, with exactly their files and links |
| IndexPages.SubfolderLinksLand | tools/s3_public_upload.py:119-131 | every subfolder link leads to a folder that has a page |
| IndexPages.ReachableIff | tools/s3_public_upload.py:119-139 | from a folder's page exactly the keys below the folder are reachable by links |
| IndexPages.EveryKeyReachable | tools/s3_public_upload.py:107-139 | with a non-empty prefix every uploaded key is reachable from the page of the prefix |
| IndexPages.BreadcrumbsLandIff | tools/s3_public_upload.py:160-164 | all breadcrumbs lead to pages iff something was uploaded or the prefix is empty or a single folder |
| ApiResources.CommonResources.CreateResource | cdk/utils/app_common.py:2085-2115 | a new resource is registered under its parent's URL and its own part |
| ApiResources.CommonResources.GetOrCreate | cdk/utils/app_common.py:2117-2141 | for every parent and part, the answer is the cached resource or a new one, the only one at its place, registered under the URL of the place; the registries stay consistent |
| ApiResources.Registry.UrlOfPlace | cdk/utils/app_common.py:2106-2107 | the URL built from the parent's registered URL is the URL of the place |
| ApiResources.UrlIsJoin | cdk/utils/app_common.py:2106-2107 | for non-empty parts without slashes that URL is the joined parts from the root |
| ApiResources.LeftStripMeaning | cdk/utils/app_common.py:2106 | exactly the leading slashes of a URL are dropped |
| ApiResources.Registry.RunsAgreeWithTree | cdk/utils/app_common.py:2117-2141 | after any run of requests, under any imported parents and APIs, each is answered under the URL of its place, and answers given before stand |
| ApiResources.Registry.SameUrlSameResource | cdk/utils/app_common.py:2104-2115 | two resources with slash-free parts are the same iff they hang from the same import, were asked for under the same APIs and have the same registered URL |

## Left out

- Command line handling, printing, logging, YAML and JSON parsing and files: the model starts from parsed stacks, documents
  and trees. Region modes of a stack are the list of its explicit regions.
- Stackfile parsing, including `_assign_groups`, `plan_to_dict` and the prompts of parameters.
- AWS and CDK calls: S3 is a map from keys to contents, IAM a map from names to roles with atomic calls, log groups a list of
  names; reads return what was last written. A failing IAM call is any number of successful ones before it.
- Thread pools: fetched results are an input, and uploads complete in an arbitrary order. A failed upload aborts the run.
- The sweep's shell: failing deployments, batches of `DEPLOY_JOBS` (some of the interleavings that are covered), skipped
  groups and the steps after each wave.
- `_ordered_groups` is not claimed to be a topological order of groups, because it is not one.
- Which of several topological orders `detect_cycles` returns, and the order of reported errors and nodes.
- `sorted` compares code points; `str.lower` is modelled on ASCII letters.
- IAM evaluation is limited to the policies of the role: no boundaries or resource policies. Conditions are opaque.
- The main functions of the two IAM and log group scripts, `collect_targets` and `resolve_role_name` of the role script.
  A malformed `Fn::Join` in a template name, which raises, is not modelled.
- ToolkitBuckets.SubToolkit: word characters are ASCII, and the bucket name is inserted as it is, without the escapes that a
  backslash would start in a replacement text.
- InPlaceRewriting.RewriteTemplate: assumes that `Parameters` and `Rules` are objects when present, and that the loaded
  template shares no parts, as a JSON parser leaves it. The counter of rewritten buckets is only logged.
- InPlaceRewriting.RewriteNode: promises nothing about the partly rewritten tree after an exception, which is discarded.
- Skipping the upload of unchanged templates, and the summary listings of both upload scripts.
- IndexPages.GenerateIndex: keys are the lists of their slash-separated parts; HTML text and sorting are left out, and so are
  uploaded files that are themselves called `index.html`.
- ApiResources.CommonResources.GetOrCreate: a parent is an imported resource or one that was handed out before. Omitting
  the API and naming the default one are different cache keys, as in the code. Logical ids are left out.
- The rest of `cdk/`, the client tools, the dashboard and the documentation generators: they wire up or present services
  whose behaviour is outside this repository.
