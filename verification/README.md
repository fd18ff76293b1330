# A verified model of kubectl-nv

kubectl-nv answers questions about the GPUs of a Kubernetes cluster, live or from a
bundle somebody gathered and sent on. This project models the parts of it whose answers
are easy to get subtly wrong, and proves what each of them promises.

* **GPU accounting** (`Requested.dfy`). What a pod asks the scheduler for, against a small
  machine for how a pod starts: plain init containers one at a time, sidecars that stay,
  then all containers. The request is the exact peak over every reachable state.
* **The bundle** (`BundleReplay.dfy`). What the gather writes about pods, what a reader
  merges out of the two files, and the end-to-end result: the requested GPUs per node read
  back from a bundle are those of the live cluster.
* **Placement and topology** (`Placement.dfy`, `Fit.dfy`, `Topology.dfy`, `Levels.dfy`,
  `Limit.dfy`, `Membership.dfy`). Placements are assignments of pods to nodes; the greedy
  test is exact for them; the level `FitJob` names is the narrowest that takes the job, and
  it names none exactly when the job cannot be placed at all.
* **`--fields`** (`Fields.dfy`). The program's in-order, element-by-element copying is
  equal to a projection defined by recursion over the document and a *set* of paths, and so
  does not depend on their order or repetition.
* **Redaction** (`Boundaries.dfy`, `NamesGone.dfy`, `RedactDirectory.dfy`). The scan that
  replaces names on their boundaries, which names it leaves standing
  nowhere, and the rewrite of a directory in which any step may fail.
* **Gathering** (`Gather.dfy`, `TarPipe.dfy`, `DriverPods.dfy`). The run of the collectors
  and its record, the resumed copy out of a pod, and the names of the driver reports.
* **Health** (`Engine.dfy`, `ErrorTree.dfy`, `Findings.dfy`, `Version.dfy`). Error trees,
  `--node` against a stable sort, exit codes, and numeric version ranges.
* **The one-screen summary** (`Summary.dfy`). The line budget and the unit conversion.

`Sorting.dfy`, `Strconv.dfy`, `Wrappers.dfy` and `Prefixes.dfy` hold what the rest leans
on. Where the source loops over slices, maps, files or a stream, the model has a method
with the same loop, proved against a specification function; the lemmas are about that
function. The order a Go map is walked in is a nondeterministic choice; which file
operations, reads and removals fail is an input of the run. `dafny verify
dfyconfig.toml` checks all of it.

## Where the code and its own documentation part

* `replaceOnBoundaries` says a match counts only when the character before it is not part
  of a name. The scan cuts the text behind every match and so cannot see the byte before a
  match that starts there: in `gpugpu` the second `gpu` is replaced.
  `Boundaries.DoubledNameIsCut` is that input, `Boundaries.PromiseKeptUnlessRunOn` says
  exactly when the rule holds.
* Replacing the names is to leave none of them in the text. A name that overlaps itself
  behind a byte that is in no Kubernetes name can stay: the scan keeps the first of two
  overlapping occurrences and resumes inside the second. The context kubeadm writes,
  `kubernetes-admin@kubernetes`, is such a name (`NamesGone.KubeadmContextOverlaps`), and
  `NamesGone.RepeatedContextIsLeft` is an input. `NamesGone.NoNameIsLeft` is the exact
  condition for a name its pseudonym is no part of; for plain Kubernetes names
  `NamesGone.NoPlainNameIsLeft` is the exact condition with any pseudonym.
* `RedactBundle` promises to rewrite every file, and passes over one whose mode cannot be
  read when the directory is listed: that file stays as it was and the run succeeds.
  `RedactDirectory.SuccessMeansRedacted` is the exact condition, in terms of which modes
  can be read, and `RedactDirectory.PassedOver` an input.
* `fits` says that sorting the free GPUs changes nothing about the total. That needs free
  GPUs that are not negative, which `freeOn` provides (`Placement.SortDoesNotShow`): without
  the sort, a node at -4 ahead of one at 4 hides room for four pods
  (`Placement.NegativeNeedsTheSort`). With the sort the answer is right for every vector.
* `collect` is documented to stop at a collector that failed. It carries on, and its own
  comment inside says so; the model carries on.
* A tree of errors that holds no leaf, such as a wrapper around nil, is read as a run in
  which nothing was missed (`ErrorTree.ClassifyInputError`).
* The end of the stream reaches `TarPipe.Read` as an error like any other, so it uses up
  the retries before it is reported; with a negative number of tries it never is
  (`TarPipe.Pipe.Read`, `TarPipe.EndMeansAll`).
* `spec.overhead` is carried into `gpu_pods.yaml` as GPUs a pod holds, and no request rule
  reads it.

## Model

| member | source | states |
|---|---|---|
| Requested.RequestIsThePeak | pkg/inventory/requested.go:72-123 | No reachable state of a pod's start-up holds more GPUs than the request, and one holds exactly that many |
| Requested.PodSpecGPURequest | pkg/inventory/requested.go:96-123 | The two loops compute that request; a missing spec asks for none |
| Requested.RequestedByNode | pkg/inventory/requested.go:35-61 | The map has a node exactly when the pods bound to it that are Pending, Running or Unknown ask for any GPUs, with the sum of their requests |
| Requested.DemandFixesTheMap | pkg/inventory/requested.go:35-61 | Two pod lists with the same demand on every node give one map |
| Requested.FinishedDoNotCount | pkg/inventory/requested.go:28-34 | Taking every Succeeded, Failed and unbound pod out of the list leaves the map as it is |
| Requested.OneNodesMap | pkg/inventory/requested.go:28-31 | Of unfinished pods all bound to one node, Pending, Running and Unknown ones all count, for that node alone, with the sum of their requests |
| Requested.OneContainer | pkg/inventory/requested.go:83-86 | A container asks for what it requests under the two names of a GPU, a limit standing in for a missing request, and for nothing under any other name |
| BundleReplay.GatherGPUPods | pkg/mustgather/complete.go:145-160 | What is written is, in order, the projection of exactly the pods on the wanted node that ask for more than no GPUs |
| BundleReplay.PodsOnNode | pkg/mustgather/collector.go:374-385 | Exactly the pods of the named node, in order; all of them when none is named |
| BundleReplay.OperandFileMembers | pkg/mustgather/collector.go:304-308 | The operand file holds exactly the pods of the operator namespace on the wanted node |
| BundleReplay.MergedInFields | pkg/source/bundle.go:405-423 | A pod is read back exactly when it is the first of its namespace and name, is of the namespace asked for, and its labels are selected |
| BundleReplay.Pods | pkg/source/bundle.go:374-433 | The first pod under each key of the two files, then narrowed; complete, partial or an error, by which file could be read and which namespaces are recorded |
| BundleReplay.KeyIsInjective | pkg/source/bundle.go:410-410 | The merge key names one namespace and one name |
| BundleReplay.ProjectionKeepsRequest | pkg/mustgather/complete.go:93-131 | Projecting a pod leaves its effective request as it was |
| BundleReplay.ProjectAlike | pkg/mustgather/complete.go:93-131 | Two pods project alike exactly when they agree on everything a reader reads, and a projection agrees with its pod: nothing read is lost, nothing else is carried |
| BundleReplay.MergeTwo | pkg/source/bundle.go:405-423 | Merging drops from the second file exactly the pods the first one has |
| BundleReplay.EachPodCountsOnce | pkg/mustgather/complete.go:154-160 | Operand pods and the GPU pods that are not among them together demand what the whole cluster does: each pod counts once |
| BundleReplay.ReplayAgreesWithLive | pkg/mustgather/complete.go:133-144 | For any snapshot the merged files demand of a node what the live pods do, for every node, or for the named one |
| BundleReplay.ServerSelectorDoesNotShow | pkg/mustgather/complete.go:146-154 | Whether the API server honoured the node selector does not show in the file |
| BundleReplay.GatherThenReplay | pkg/mustgather/complete.go:145-160 | The whole trip: gather, read back, sum; the maps are equal, or agree on the named node |
| Placement.Fits | pkg/topology/fit.go:209-228 | Yes precisely when some assignment puts every pod on a node and keeps every node within its free GPUs, for every vector and every request |
| Placement.CanPlaceIsRoom | pkg/topology/fit.go:197-208 | Pods can be placed exactly when the per-node capacities add up to their number |
| Placement.PlacedWithinRoom | pkg/topology/fit.go:200-203 | No assignment places more pods than the capacities add up to |
| Placement.RoomIsFillable | pkg/topology/fit.go:206-208 | Filling one node after the other reaches that number |
| Placement.NegativeNeedsTheSort | pkg/topology/fit.go:214-225 | With a negative entry first, the pass without the sort denies pods that can be placed |
| Placement.SortDoesNotShow | pkg/topology/fit.go:214-225 | Over free GPUs that are not negative, the pass in the order given, early exit included, answers the same |
| Fit.FitJob | pkg/topology/fit.go:121-153 | Per level the values, sorted, of exactly the groups that take the job; the first such level; the excluded nodes, sorted |
| Fit.SmallestIsNarrowest | pkg/topology/fit.go:69-80 | Over the report of these nodes, the answer is the narrowest level with a group that takes the job, and there is one exactly when some assignment puts every pod on a ready, schedulable, known node and overdraws none |
| Fit.TakesInFields | pkg/topology/fit.go:155-228 | A group takes a job exactly when some assignment puts every pod on a ready, schedulable, known node of the group with what its pods ask for and the new ones within what it has allocatable |
| Fit.PlaceableInFields | pkg/topology/fit.go:155-228 | The same of any list of nodes |
| Fit.FirstTakingIsNarrowest | pkg/topology/fit.go:142-148 | The level kept is the first one that takes the job, with none before it |
| Fit.MoreNodesMoreRoom | pkg/topology/fit.go:186-195 | More nodes never mean room for fewer pods |
| Fit.WiderTakes | pkg/topology/fit.go:142-148 | A group takes whatever a group of some of its nodes takes |
| Fit.PlaceableNodes | pkg/topology/fit.go:165-181 | The free GPUs of the nodes a pod can land on, and, sorted, exactly the names of those that are cordoned, not ready or unknown |
| Fit.TakingGroupHasTheGPUs | pkg/topology/fit.go:197-208 | A fully known group that takes a job has at least pods times GPUs per pod free |
| Topology.GroupOf | pkg/topology/group.go:538-569 | Totals of its nodes, free as the sum of clamped per-node frees and the largest as their maximum; nothing about use when one node is unknown |
| Topology.GroupOfOneMore | pkg/topology/group.go:541-568 | A node more adds one to the count and its fields to the totals, its free GPUs being what it has over what is asked for, or none; one unknown node silences what is used |
| Topology.FreeIsTheRest | pkg/topology/group.go:530-537 | A known group's free and requested make up its allocatable exactly when no node of it is overdrawn, and never less |
| Topology.ValueInFields | pkg/topology/group.go:448-471 | The value of a label: the node's topology field if it is not empty, the clique for the clique label, else the node's own label |
| Topology.GroupsAt | pkg/topology/group.go:506-528 | One group per value in use, strictly increasing, each summarising exactly the nodes with that value |
| Topology.DivisionUnique | pkg/topology/group.go:516-528 | The order the map is walked in does not show |
| Topology.DivisionIsPartition | pkg/topology/group.go:504-514 | A group names a node exactly when the node carries the group's value |
| Topology.DivisionConserves | pkg/topology/group.go:530-569 | Over all groups, node counts and allocatable GPUs add up to those of the nodes that carry the label |
| Topology.GroupsPerNode | pkg/topology/group.go:477-486 | One group per node, named after it, in order of name |
| Topology.GroupsWholeCluster | pkg/topology/group.go:491-502 | One group of every node, or none over no nodes |
| Levels.LevelsOf | pkg/topology/group.go:325-377 | Node, NVLink levels in use, tiers in order, the Kueue levels taken on the backward walk, cluster |
| Levels.LevelsInPlace | pkg/topology/group.go:288-298 | The levels run node, clique, sub-domain, domain, tiers, Kueue, cluster, at most one of each but tiers and Kueue |
| Levels.LevelNames | pkg/topology/group.go:332-376 | What the node, tier, Kueue and cluster levels are called and which label each reads |
| Levels.GroupingsInUse | pkg/topology/group.go:337-349 | Clique, sub-domain and domain are levels exactly when some node carries their label, each under its own name and label |
| Levels.TiersInUse | pkg/topology/group.go:380-400 | A tier label is a level exactly when some node carries it |
| Levels.TiersByNumber | pkg/topology/group.go:402-411 | Of two tiers numbered m and n with m under n, the first is ahead, so tier-2 is ahead of tier-10 |
| Levels.UnnumberedTiersLast | pkg/topology/group.go:386-393 | A tier whose suffix is no number is behind every numbered one |
| Levels.KueueLevelsDeclared | pkg/topology/group.go:358-374 | A Kueue level is there exactly when a Topology declares its label, no level above reads it and some node carries a value for it |
| Levels.TierLevels | pkg/topology/group.go:380-414 | One level per tier label in use, by number and then label, a suffix that is no number last |
| Levels.TiersUnique | pkg/topology/group.go:402-411 | Those levels are one sequence whatever order the labels came in |
| Levels.LevelsUnique | pkg/topology/group.go:288-298 | All levels are one sequence whatever order maps were walked in |
| Levels.NoLabelTwice | pkg/topology/group.go:319-324 | No label is read at two levels; node first, cluster last |
| Levels.ExplicitLevelsHaveNodes | pkg/topology/group.go:319-320 | Every explicit level divides at least one node |
| Levels.KueueLevelsNarrowFirst | pkg/topology/group.go:308-312 | Of two Kueue levels of the report that one Topology declares, the later, narrower one comes first, unless an earlier Topology declares the wider one or it is declared again behind the other |
| Levels.KueueNarrowFirst | pkg/topology/group.go:358-374 | The same of the labels the walk takes, whatever levels were named above |
| Levels.TakenKeepsWalkOrder | pkg/topology/group.go:358-374 | Levels taken keep the order in which the walk first meets them |
| Levels.Build | pkg/topology/group.go:256-274 | The report carries those levels, each with its groups |
| Limit.TopologyReport.LimitItems | pkg/topology/report.go:384-422 | A limit that cuts keeps exactly the first n groups in order, no level empty, all but the last whole, and counts the rest; any other limit changes nothing |
| Limit.NothingIsUncounted | pkg/topology/report.go:416-419 | Kept plus remaining is the total |
| Limit.CutHere | pkg/topology/report.go:402-414 | Cutting the level the limit falls in, behind the non-empty levels before it, leaves the first n groups of the whole report |
| Membership.ClassifyNodes | pkg/source/source.go:254-276 | For each name its first node, a GPU node by slice or capacity, hinted only by label otherwise; both sorted by name with no name twice |
| Membership.SetsInWords | pkg/source/source.go:244-249 | The rule of each set, and its strict order by name |
| Membership.GPUNodeInWords | pkg/source/source.go:200-221 | A GPU node by capacity has a positive capacity of nvidia.com/gpu, nvidia.com/gpu.shared or some nvidia.com/mig- profile |
| Membership.HintInWords | pkg/source/source.go:224-227 | A hint is one of the two discovery labels set to true |
| Membership.SetsAreDisjoint | pkg/source/source.go:244-247 | No name is in both sets |
| Membership.SliceNodeNames | pkg/source/source.go:232-242 | The non-empty node names of the driver's own slices |
| Fields.CopyPath | pkg/output/fields.go:639-683 | Computes one path copy, through objects and arrays, onto whatever is there |
| Fields.ProjectMap | pkg/output/fields.go:620-630 | The copies one after the other make the projection by the set of requested and always kept paths |
| Fields.ProjectObject | pkg/output/fields.go:597-613 | A list envelope is kept whole with each object item projected; anything else is projected itself |
| Fields.AlwaysAsked | pkg/output/fields.go:41-41 | The paths asked for are apiVersion, kind, metadata.name and the given ones, and no other |
| Fields.KindAndNameAreKept | pkg/output/fields.go:620-624 | Whatever is asked for, the projection holds those three as the document does |
| Fields.CopyOntoItself | pkg/output/fields.go:646-659 | Copying a path from a document onto itself changes nothing |
| Fields.CopyAddsPath | pkg/output/fields.go:639-683 | Copying a path onto the projection by a set of paths gives the projection by that set and the path |
| Fields.CopiesCommute | pkg/output/fields.go:662-681 | Two path copies commute on any partial projection |
| Fields.ProjectionIsPart | pkg/output/fields.go:616-630 | The whole run of copies is the projection by the set of its paths |
| Fields.OrderAndRepetitionDoNotShow | pkg/output/fields.go:620-630 | Lists with the same paths in any order, any number of times, project alike |
| Fields.PartInventsNothing | pkg/output/fields.go:632-638 | The projection is a sub-document: same values, arrays of the same length and order |
| Fields.NothingInvented | pkg/output/fields.go:632-638 | Place by place, by keys and indices: what the projection has there the document has too, the same scalar, an array as long, an object |
| Fields.CoveredPlacesAreKept | pkg/output/fields.go:639-683 | At every place whose path is covered, through any number of arrays, the projection is the document |
| Fields.ScalarExactlyWhenCovered | pkg/output/fields.go:616-683 | A scalar of the document is in the projection exactly when its path is covered, but for array elements that are no objects, which are kept with their array |
| Fields.PartIdempotent | pkg/output/fields.go:616-630 | Projecting twice is projecting once |
| Fields.CoveredBy | pkg/output/fields.go:713-724 | The string tests decide whether some kept path's segments are a prefix of the column's |
| Fields.CoveredExactlyWhenHeldWhole | pkg/output/fields.go:710-712 | A column is covered exactly when, in every document, the projection is the document at every place its path leads to |
| DottedPaths.InsideIsProperPrefix | pkg/output/fields.go:718-718 | A path starts with a section and a dot exactly when the section's segments are a proper prefix of its own |
| Boundaries.ReplaceOnBoundaries | pkg/mustgather/redact.go:642-668 | The loop computes the rewrite, and terminates |
| Boundaries.RewrittenIsAssembly | pkg/mustgather/redact.go:648-665 | The rewrite is the text with the chosen ones of the scanned matches replaced and every other byte kept in order |
| Boundaries.ScanIsLeftmost | pkg/mustgather/redact.go:649-664 | The scan meets exactly the leftmost non-overlapping occurrences, and misses none but those inside one it met |
| Boundaries.ChoiceAt | pkg/mustgather/redact.go:656-664 | The k-th match is replaced exactly when no name byte follows and either none precedes or the text resumed there |
| Boundaries.ChoiceInBytes | pkg/mustgather/redact.go:670-708 | The k-th match is replaced exactly when no letter, digit or dash follows, and no letter, digit, dot, dash or slash precedes or it runs on from the match before |
| Boundaries.LoneMatch | pkg/mustgather/redact.go:623-631 | A text with one match is left alone when it is part of a longer name by those bytes, and has just that match replaced when it is not |
| Boundaries.ResourceNameIsKept | pkg/mustgather/redact.go:626-631 | A node called gpu leaves nvidia.com/gpu as it is |
| Boundaries.PromiseKeptUnlessRunOn | pkg/mustgather/redact.go:640-641 | The documented rule is the one applied exactly when the match does not run on from the one before |
| Boundaries.DoubledNameIsCut | pkg/mustgather/redact.go:628-632 | The input on which it is not |
| Boundaries.NothingChosenNothingChanged | pkg/mustgather/redact.go:659-663 | With nothing replaced, the assembly is the text |
| Boundaries.ReplaceIdentities | pkg/mustgather/redact.go:632-638 | The names are replaced one after the other, each in what the one before left |
| NamesGone.NoNameIsLeft | pkg/mustgather/redact.go:623-631 | For any name its pseudonym is no part of: after the rewrite it stands nowhere on its own, in any text, exactly unless it overlaps itself behind a byte that is in no Kubernetes name |
| NamesGone.OverlapIsLeft | pkg/mustgather/redact.go:655-664 | For every name that does, a text that is its own rewrite and in which the name stands |
| NamesGone.KubeadmContextOverlaps | pkg/mustgather/redact.go:1036-1039 | The context kubeadm writes is such a name |
| NamesGone.RepeatedContextIsLeft | pkg/mustgather/redact.go:655-664 | A short input of that shape on which nothing is replaced and the name stands |
| NamesGone.NoPlainNameIsLeft | pkg/mustgather/redact.go:623-631 | For a plain Kubernetes name and any pseudonym: it stands nowhere after the rewrite, exactly unless the pseudonym begins the name and the name goes on with a byte that ends a match |
| NamesGone.StaysFree | pkg/mustgather/redact.go:632-638 | Replacing another name does not bring one back |
| NamesGone.NoIdentityIsLeft | pkg/mustgather/redact.go:632-638 | After all the names are replaced, in any order, none of them stands on its own, when none overlaps itself so and no pseudonym is part of a name |
| NamesGone.PseudonymsAre | pkg/mustgather/redact.go:104-118 | A kind, a dash and hexadecimal digits have the shape the laws ask of a pseudonym |
| NamesGone.PlainNamesAre | pkg/mustgather/redact.go:676-676 | Plain names are those of letters, digits, dots, dashes and slashes |
| RedactDirectory.WriteThenRename | pkg/mustgather/redact.go:253-293 | Every listing on the way is the old one with at most a temporary file more, or has the rewritten file in place with the old one still beside it or gone; it succeeds exactly when no step fails, and then the file is under its new name alone |
| RedactDirectory.RedactFile | pkg/mustgather/redact.go:210-244 | Succeeds exactly when no step fails and the content can be dealt with: rewritten with its mode, or removed and listed as dropped; a content that fails changes nothing |
| RedactDirectory.RedactBundle | pkg/mustgather/redact.go:166-207 | In every listing on the way each file is as it was, or rewritten under its redacted name, or cannot be rewritten and is gone, and no other entry is touched; it succeeds exactly when the directory can be listed and every file listed dealt with, and then all of them are, with the dropped ones listed in order |
| RedactDirectory.ListFiles | pkg/mustgather/redact.go:172-190 | In order of name, exactly the regular files but the manifest whose mode can be read |
| RedactDirectory.DiscardBundle | pkg/mustgather/redact.go:1060-1076 | Leaves exactly the directories and what cannot be removed |
| RedactDirectory.RedactOrDiscard | pkg/mustgather/redact.go:1043-1047 | Either the redaction succeeds, or the discard leaves exactly what it cannot remove; until the discard begins no file is lost, and when no removal fails only directories remain |
| RedactDirectory.SuccessMeansRedacted | pkg/mustgather/redact.go:177-206 | After success a file is redacted exactly when its mode could be read for the listing, or its rewrite would change nothing; else it is as it was |
| RedactDirectory.AllRedacted | pkg/mustgather/redact.go:155-165 | When every mode can be read, success means every file is rewritten under its redacted name or removed and listed |
| RedactDirectory.DroppedInWords | pkg/mustgather/redact.go:228-238 | What is listed as dropped is exactly the files that cannot be rewritten, under their redacted names |
| RedactDirectory.NothingIsLost | pkg/mustgather/redact.go:162-165 | In every listing on the way the manifest, links and directories are as they were, and a regular file is as it was, or has its rewritten bytes and old mode under its new name, or cannot be rewritten and is gone |
| RedactDirectory.WorksInWords | pkg/mustgather/redact.go:210-293 | Which steps must not fail: all of them for a rewrite under a new name, the reads and the removal for a drop; a content that fails is never dealt with |
| RedactDirectory.TempNamesInWords | pkg/mustgather/redact.go:254-254 | The shape of the temporary names |
| RedactDirectory.PassedOver | pkg/mustgather/redact.go:181-187 | A bundle with an unreadable mode, which meets the conditions of success with its file not redacted |
| RedactDirectory.RewriteStaysKept | pkg/mustgather/redact.go:246-252 | Putting one rewritten file in place loses no other file, when names keep apart |
| RedactDirectory.OneMoreRewritten | pkg/mustgather/redact.go:200-204 | Rewriting one more file leaves the files already done and those still to do as they were, when names keep apart |
| RedactDirectory.ClashLosesAFile | pkg/mustgather/redact.go:192-198 | Two files that end under one name, one after the other: the name holds the second, and what was in the first is nowhere |
| TarPipe.Pipe.InitReadFrom | pkg/mustgather/cp.go:84-111 | The stream is opened at the n-th byte, counting from one, when retries were asked for, else at the start |
| TarPipe.Pipe.Read | pkg/mustgather/cp.go:113-128 | Whatever the pipe hands over is delivered and is the next bytes of the stream; an error is retried, the stream reopened where it was, exactly while tries are left, and reported as it came when none are |
| TarPipe.Pipe.Drain | pkg/mustgather/cp.go:113-128 | Over any run of reads what was delivered is one stretch of the stream, none lost and none repeated, as long as the script of the pipe plays out to |
| TarPipe.EveryByteArrives | pkg/mustgather/cp.go:113-128 | A stream that breaks no more often than there are tries left is delivered to its last byte |
| TarPipe.StopsShortOnlyForBreaks | pkg/mustgather/cp.go:115-123 | Reading stops short of the end only for more breaks than there are tries left |
| TarPipe.EndMeansAll | pkg/mustgather/cp.go:115-123 | The end is reported only after every byte, an error only when no tries are left, and none ever when the tries are without number |
| Gather.Gatherer.WriteArtifactFile | pkg/mustgather/mustgather.go:596-610 | The artifact is in place and recorded exactly when every step worked; else the unfinished file is gone unless its removal failed |
| Gather.Gatherer.Perform | pkg/mustgather/mustgather.go:927-962 | What each action does to the files, the record, the collected flag and the refused execs |
| Gather.Gatherer.RunCollector | pkg/mustgather/mustgather.go:747-769 | One status behind the earlier ones, listing what was committed while this collector was current |
| Gather.Gatherer.Collect | pkg/mustgather/mustgather.go:741-785 | One status per collector in order, collected exactly when something other than a marker was committed, and the verdict |
| Gather.StatusInWords | pkg/mustgather/mustgather.go:752-767 | A status says how its collector ended: ok, skipped with its reason, or failed with its message |
| Gather.CommittedInWords | pkg/mustgather/mustgather.go:927-962 | A status lists exactly the names that were written without a fault, copied out, or left as a marker |
| Gather.CollectedInWords | pkg/mustgather/mustgather.go:927-937 | Something was collected exactly when a file was written without a fault or copied out; a marker does not count |
| Gather.DeniedInWords | pkg/mustgather/mustgather.go:775-778 | The sections named as refused are exactly those that were |
| Gather.FailedInWords | pkg/mustgather/mustgather.go:780-782 | The collectors named as failed are exactly those that did |
| Gather.CompleteExactlyWhen | pkg/mustgather/mustgather.go:775-784 | No error exactly when no collector failed and no exec was refused |
| Gather.UnfinishedExactlyWhen | pkg/mustgather/mustgather.go:892-913 | An unfinished file is left exactly when a write of it could not be taken back and none after it opened it again |
| Gather.NoUnfinishedFile | pkg/mustgather/mustgather.go:867-869 | When removals work none is left |
| Gather.TempInWords | pkg/mustgather/mustgather.go:867-870 | An unfinished file is named after its artifact with .part behind it |
| Gather.CommittedStays | pkg/mustgather/mustgather.go:892-904 | What was committed and not touched since is there as written |
| DriverPods.FindDriverPods | pkg/mustgather/driverpods.go:56-80 | The pods of every selector on the node, each kept under the first that lists it, sorted by name |
| DriverPods.FoundOnce | pkg/mustgather/driverpods.go:53-55 | Exactly the pods some selector lists on the node, each once |
| DriverPods.FoundUnderFirst | pkg/mustgather/driverpods.go:68-75 | Each under the first selector that lists it on the node |
| DriverPods.FoundInOrder | pkg/mustgather/driverpods.go:78-78 | In order of pod name |
| DriverPods.NameReports | pkg/mustgather/driverpods.go:139-161 | Every report gets a name of its own, the node's alone for the first pod of a node |
| DriverPods.NamesInWords | pkg/mustgather/driverpods.go:157-161 | The two kinds of file name, spelt out |
| DriverPods.ReportNamesDiffer | pkg/mustgather/driverpods.go:136-139 | No two reports share a file |
| DriverPods.ReportIsNoUsageFile | pkg/mustgather/driverpods.go:308-315 | No bug report shares a file with a device usage listing |
| DriverPods.TakenMeansSeen | pkg/mustgather/driverpods.go:157-161 | A node's short name is taken exactly when a pod of that node came before |
| Findings.SortFindings | pkg/output/sort.go:25-33 | Sorts the array in place, stably, by node and then code |
| Findings.FindingsInOrder | pkg/output/sort.go:25-33 | Sorted findings run by node, and those of one node by code |
| Sorting.StringLeIsLexicographic | pkg/output/sort.go:25-33 | The order of strings: the beginning of the other, or smaller at the first byte where they differ |
| Sorting.SortCommutesWithFilter | pkg/output/sort.go:25-33 | Stability: filtering the sorted findings is sorting the filtered ones |
| Sorting.SortPermutes | pkg/output/sort.go:25-33 | The sort loses and adds nothing |
| Sorting.SortOrders | pkg/output/sort.go:25-33 | The sort orders |
| Findings.Rank | pkg/output/exitcode.go:64-72 | The place of a severity among the known ones, and 0 for no other reason than being unknown |
| Findings.ExitCode | pkg/output/exitcode.go:157-173 | 1 exactly when a finding reaches the threshold, else 3 exactly when something was partial, else 0 |
| Findings.CodesInNumbers | pkg/output/exitcode.go:28-44 | 0 clean, 1 findings, 2 usage, 3 partial, 4 error |
| Findings.ReachesInWords | pkg/output/exitcode.go:157-167 | Errors reach the default threshold, warnings and errors "warning", all known severities "info"; an unknown one reaches no known threshold |
| Findings.LowerThresholdKeepsFindings | pkg/output/exitcode.go:148-156 | Lowering the threshold never leaves 1 |
| ErrorTree.CollectPartial | pkg/health/engine/engine.go:341-375 | Succeeds exactly when no path down through wrappers and joins leads to a hard failure, and returns exactly the partial reads in order |
| ErrorTree.LeavesFromTheLeft | pkg/health/engine/engine.go:335-340 | The leaves are what the paths lead to, from the left, each path once and no other |
| ErrorTree.HardLeafIsReached | pkg/health/engine/engine.go:335-340 | Some leaf is not a partial read exactly when some path leads to a hard failure, with a code of its own or without |
| ErrorTree.ClassifyInputError | pkg/health/engine/engine.go:284-305 | The missed resources sorted, or that the run did not happen |
| ErrorTree.MissedInWords | pkg/health/engine/engine.go:294-302 | Of each partial read its resource and reason, in order of resource |
| ErrorTree.PartialReadsExitPartial | pkg/output/exitcode.go:178-189 | An error all of whose leaves are partial reads carries exit code 3 when it has a leaf, and none when it has not |
| ErrorTree.CodeInParts | pkg/output/exitcode.go:178-189 | An error exits with its own code, else that of what it wraps, else that of the first it joins to carry one, else 4; nil exits 0 and a partial read 3 |
| Engine.Run | pkg/health/engine/engine.go:62-120 | When each outcome happens; the report's findings, missed resources and summary |
| Engine.KeptFindings | pkg/health/engine/engine.go:85-108 | A report carries exactly what the rules that apply find in the whole input, with the link to its code, of the node or the cluster |
| Engine.FilterCommutesWithRun | pkg/health/engine/engine.go:122-127 | The findings under --node are those of the whole report that are about the node or the cluster, in its order |
| Engine.Summarize | pkg/health/engine/engine.go:245-276 | Counts of the findings carried by severity, totals of the nodes checked, known only when each is |
| Engine.SummaryOfOneMore | pkg/health/engine/engine.go:263-273 | A checked node more adds its fields to the totals, and one unknown node makes the requests unknown |
| Engine.SummaryOfFindings | pkg/health/engine/engine.go:248-257 | A finding more counts under its severity and no other |
| Engine.NodesChecked | pkg/health/engine/engine.go:137-161 | Every node of the input, or those with the name |
| Engine.HealthExit | pkg/cmd/health/health.go:283-292 | 4 when a path leads to a hard failure, and with plain wrappers only then; else 2 or 3 for a node nobody saw; else 1 on a finding at the threshold, the input error's own code when something was missed, or 0; 3 or 1 whenever something was missed, when no wrapper has a code of its own |
| Version.ParseVersion | pkg/health/rule_version.go:71-109 | The loop computes the parse |
| Version.ParseReadsBack | pkg/health/rule_version.go:68-70 | A rendered version reads back as itself, with or without v, with any suffix from - or + on |
| Version.MajorAlone | pkg/health/rule_version.go:34-35 | A missing minor and patch read as zero |
| Version.MajorAndMinor | pkg/health/rule_version.go:34-35 | A missing patch reads as zero |
| Version.NoVersions | pkg/health/rule_version.go:77-103 | A fourth component, an empty one, one that is no number, or nothing behind the v is no version |
| Version.CompareIsTotalOrder | pkg/health/rule_version.go:113-127 | Antisymmetric, equal only on equal versions, transitive, strictly where one step is strict |
| Version.RangesPartition | pkg/health/rule_version.go:48-63 | Adjacent ranges are disjoint and together are the whole range |
| Version.RangeInNumbers | pkg/health/rule_version.go:39-63 | A version that cannot be read is in every range, a bound that cannot be read is none, and the others are numeric, the lower one in and the upper one out |
| Version.NoBoundsNoLimit | pkg/health/rule_version.go:46-47 | Without bounds every version is in range |
| Version.RangeOfWritten | pkg/health/rule_version.go:48-63 | Of written versions, with both bounds or one, by major, minor and patch |
| Summary.HumanBytes | pkg/cmd/debug/summary.go:328-341 | From 1024 bytes up a unit there is, no overflow, and a quotient of at least 1 and under 1024 to print in front of it |
| Summary.UnitsInBytes | pkg/cmd/debug/summary.go:334-340 | Each unit from K to E stands for its power of 1024, over exactly the sizes from that power up to the next |
| Strconv.DecimalIsBaseTen | pkg/cmd/debug/summary.go:330-331 | Numbers are written in decimal digits |
| Summary.PrintedWithin | pkg/cmd/debug/summary.go:340-340 | Rounded to a tenth, the quotient is at least 1.0, and reaches 1024.0 exactly in the last twentieth below the next unit |
| Summary.LastByteBelowUnit | pkg/cmd/debug/summary.go:340-340 | One byte short of a MiB is printed as 1024.0 KiB |
| Summary.Bounded | pkg/cmd/debug/summary.go:297-309 | Every line, or the first ones and a count of exactly the others, within the limit |
| Summary.OutcomeLine | pkg/cmd/debug/summary.go:265-267 | Within the line width |
| Summary.FoldedLine | pkg/cmd/debug/summary.go:245-262 | The loop computes the folded line |
| Summary.FoldedShowsTheMost | pkg/cmd/debug/summary.go:241-244 | The folded line is within the width, and no more names would have fitted |
| Summary.EachNameShows | pkg/cmd/debug/summary.go:245-254 | A list of names shows each of them, a comma between neighbours |
| Summary.ActionableInWords | pkg/cmd/debug/summary.go:277-279 | A skip can be acted on exactly when its reason begins with "forbidden" or says "timeout" |
| Summary.ScreenWithinBudget | pkg/cmd/debug/summary.go:39-49 | At most 30 lines for every report |
| Summary.OperandsInNumbers | pkg/cmd/debug/summary.go:50-52 | Up to eight operands are all listed; of more, seven, and a line that counts the others |
| Summary.MoreInWords | pkg/cmd/debug/summary.go:302-308 | What the line that counts the others says |
| Summary.OutcomesInWords | pkg/cmd/debug/summary.go:245-267 | Within 96 columns, a line that fits says what became of which collector and why, and the folded one names them all |
| Summary.FoldedInWords | pkg/cmd/debug/summary.go:251-257 | A folded line that leaves names out counts exactly those |
| Summary.NodeLinesInWords | pkg/cmd/debug/summary.go:90-97 | The eight lines about the node, in their order |
| Summary.BundleInWords | pkg/cmd/debug/summary.go:206-209 | Where the bundle is, how its collectors ended, then their outcomes |
| Summary.OperandInWords | pkg/cmd/debug/summary.go:188-192 | An operand's component, phase, readiness and restarts |
| Summary.EveryOutcomeHasAPlace | pkg/cmd/debug/summary.go:211-224 | Every failed collector and every skip a reader can act on has its own line, failures first; every other skip is named on the folded line; nothing else is on either |
| Summary.TextHasOneLineEach | pkg/cmd/debug/summary.go:86-108 | The text has as many lines as were composed, whatever is in them |
| Summary.SanitizeEach | pkg/output/logger.go:128-159 | A newline or tab is printed as a space, no other control character is, and every other character is as it is |
| Summary.SanitizeKeeps | pkg/output/logger.go:148-159 | Text without control characters is printed as it is |
| Summary.KeyLineInWords | pkg/cmd/debug/summary.go:350-356 | A key line is the key, a colon, spaces up to the seventeenth column, and the value |
| Summary.StatusInWords | pkg/cmd/debug/summary.go:150-165 | What the status line says of a node |
| Summary.PartialInWords | pkg/cmd/debug/summary.go:160-162 | A partial report says so on that line |
| Summary.CountsInWords | pkg/cmd/debug/summary.go:114-124 | Requested, or a question mark, allocatable and capacity, in that order |
| Summary.MigInWords | pkg/cmd/debug/summary.go:134-145 | The MIG strategy, configuration and state, each where there is one |
| Summary.NextInWords | pkg/cmd/debug/summary.go:285-292 | The commands to run next, the one on the bundle only when there is a manifest |
| Summary.Summarise | pkg/cmd/debug/summary.go:86-108 | What is printed is the screen, cut where the writer breaks if it does, within the budget; it fails exactly when the writer breaks |

## Left out

- Aliasing of projected documents: the projection is modelled on values. The program shares a requested section with its source and may then copy a field of the section onto it; `Fields.CopyOntoItself` is why that is harmless.
- Sort ties: every sort is modelled as a stable one. Where the source's sort need not be stable, ties could come out in another order: among error-tree resources of one name, driver pods of one name, or nodes of one name.
- Summary.HumanBytes: the quotient and its unit; the text `%.1f` makes of them is a parameter of `Summarise`. `Summary.PrintedWithin` rounds the exact quotient, which the program's float64 is up to 2^53 bytes.
- Summary.OutcomeLine: cuts at a character where the program cuts at a byte, so a cut through a multi-byte character does not appear.
- Summary.Summarise: the bundle directory is not cut, so its line may be wider than the others, as in the program.
- TarPipe.Pipe.Read: the count of bytes read is unbounded, not 64-bit, and every attempt of the remote replays the same bytes.
- RedactDirectory.WriteThenRename: file descriptors, fsync and directories inside the bundle.
- RedactDirectory.RedactBundle: assumes the renamed files keep apart, as the pseudonyms make them; `RedactDirectory.ClashLosesAFile` says what happens otherwise. The content rewrite is an arbitrary function that rewrites, drops or fails. What is under a name shaped like the program's own temporary files is not said to be wholly old or wholly rewritten, and of a file of such a name that was dropped it is not said that the name stays free.
- NamesGone.NoIdentityIsLeft: one way only for several names, since another name may rewrite the text in which one is left. The longest-first order, which keeps two names distinguishable, is not needed for this and not modelled.
- Secret shapes and addresses, which are pattern matching; HMAC, gzip, YAML and JSON, which are library behaviour; the learning of names from the files of a bundle; and the rename of files, which replaces names without regard to boundaries.
- Engine.Run: that rules get a copy of the nodes shows only in a rule that mutates its input, and rules are pure functions here. The short reason of a partial read is part of the leaf.
- Findings.ExitCode: parsing of `--fail-on` is not modelled; the threshold is any string.
- Gather.Gatherer.Collect: a collector is the list of what it does and how it ends, whatever made it decide so. A skip found inside a joined error counts as a skip, as `Skips`. Panics, the manifest and the exit code around `collect` are not modelled.
- Levels.NoLabelTwice: assumes what the Topology parser guarantees, that no level is an empty label.
- Levels.Build: partialNodes, which names nodes that carry some Topograph labels and not others.
- Requested.PodSpecGPURequest: quantities are natural numbers; 64-bit overflow of sums and quantities that are no whole number are not modelled.
- BundleReplay.Pods: parsing of the selector and of YAML; a file is read, is unreadable, or breaks the bundle.
- BundleReplay.ReplayAgreesWithLive: only requested counts are meant to agree; pods outside the operator namespace are projected.
- Kubernetes clients, pagination, discovery, execs and contexts; cobra commands, MCP, tables, colours and logging; JSON schemas and FieldPaths, which rest on reflection; the single health rules, which are one-branch predicates; deep copies and marshalling of nil slices, easy members only.
