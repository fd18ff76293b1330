/**
 pkg/topology/fit.go, FitJob: where a job fits at every level of a report, and the
 narrowest level that takes it.
 */
module Fit {
  import opened Prefixes
  import opened Sorting
  import opened Topology
  import opened Levels
  import opened Placement

  datatype JobRequest = JobRequest(namespace: string, name: string, pods: int, gpusPerPod: int)

  datatype LevelFit = LevelFit(level: string, tag: string, groups: seq<string>)

  datatype JobFit = JobFit(request: JobRequest, levels: seq<LevelFit>, smallest: string, excluded: seq<string>)

  predicate Placeable(n: GPUNode) { !n.unschedulable && n.ready && n.requestedKnown }

  const EXCLUDED: GPUNode -> bool := (n: GPUNode) => !Placeable(n)

  function FreeByName(nodes: seq<GPUNode>): map<string, int> {
    if nodes == [] then map[]
    else
      var last := nodes[|nodes| - 1];
      if Placeable(last) then FreeByName(nodes[..|nodes| - 1])[last.name := FreeOn(last)]
      else FreeByName(nodes[..|nodes| - 1])
  }

  method PlaceableNodes(nodes: seq<GPUNode>) returns (free: map<string, int>, excluded: seq<string>)
    ensures free == FreeByName(nodes)
    ensures excluded == Sort(Names(Filter(nodes, EXCLUDED)), StrLe)
    ensures forall x :: x in excluded <==> exists n :: n in nodes && n.name == x && (n.unschedulable || !n.ready || !n.requestedKnown)
  {
    free, excluded := map[], [];
    for i := 0 to |nodes|
      invariant free == FreeByName(nodes[..i])
      invariant excluded == Names(Filter(nodes[..i], EXCLUDED))
    {
      PrefixSnoc(nodes, i);
      FilterSnoc(nodes[..i], nodes[i], EXCLUDED);
      if nodes[i].unschedulable || !nodes[i].ready || !nodes[i].requestedKnown {
        excluded := excluded + [nodes[i].name];
        continue;
      }
      free := free[nodes[i].name := FreeOn(nodes[i])];
    }
    WholePrefix(nodes);
    SortMembers(excluded, StrLe);
    ExcludedNames(nodes);
    excluded := Sort(excluded, StrLe);
  }

  lemma ExcludedNames(nodes: seq<GPUNode>)
    ensures forall x :: x in Names(Filter(nodes, EXCLUDED)) <==>
      exists n :: n in nodes && n.name == x && (n.unschedulable || !n.ready || !n.requestedKnown)
  {
    var out := Filter(nodes, EXCLUDED);
    FilterMembers(nodes, EXCLUDED);
    forall n | n in out ensures n.name in Names(out) { NamesOfMembers(out); }
    forall x | x in Names(out) ensures exists n :: n in nodes && n.name == x && (n.unschedulable || !n.ready || !n.requestedKnown) {
      var i :| 0 <= i < |out| && Names(out)[i] == x;
      assert out[i] in out;
    }
  }

  function FreeVector(names: seq<string>, free: map<string, int>): seq<int> {
    if names == [] then []
    else if names[|names| - 1] in free then FreeVector(names[..|names| - 1], free) + [free[names[|names| - 1]]]
    else FreeVector(names[..|names| - 1], free)
  }

  method FreeOfGroup(g: Group, free: map<string, int>) returns (out: seq<int>)
    ensures out == FreeVector(g.nodes, free)
  {
    out := [];
    for i := 0 to |g.nodes|
      invariant out == FreeVector(g.nodes[..i], free)
    {
      PrefixSnoc(g.nodes, i);
      if g.nodes[i] in free { out := out + [free[g.nodes[i]]]; }
    }
    WholePrefix(g.nodes);
  }

  /** A group takes a job when its pods can be placed on the group's placeable nodes. */
  ghost predicate Takes(g: Group, free: map<string, int>, req: JobRequest) {
    req.pods > 0 && req.gpusPerPod > 0 && CanPlace(FreeVector(g.nodes, free), req.pods, req.gpusPerPod)
  }

  ghost function TakingValues(groups: seq<Group>, free: map<string, int>, req: JobRequest): seq<string> {
    if groups == [] then []
    else if Takes(groups[|groups| - 1], free, req)
    then TakingValues(groups[..|groups| - 1], free, req) + [groups[|groups| - 1].value]
    else TakingValues(groups[..|groups| - 1], free, req)
  }

  ghost predicate SomeGroupTakes(level: Level, free: map<string, int>, req: JobRequest) {
    exists g :: g in level.groups && Takes(g, free, req)
  }

  lemma {:induction false} NonemptyWhenTaken(groups: seq<Group>, free: map<string, int>, req: JobRequest)
    ensures TakingValues(groups, free, req) != [] <==> exists g :: g in groups && Takes(g, free, req)
  {
    if groups != [] {
      NonemptyWhenTaken(groups[..|groups| - 1], free, req);
      assert groups == groups[..|groups| - 1] + [groups[|groups| - 1]];
    }
  }

  ghost function FitAt(level: Level, free: map<string, int>, req: JobRequest): LevelFit {
    LevelFit(level.name, level.tag, Sort(TakingValues(level.groups, free, req), StrLe))
  }

  /** The name of the first level a group of which takes the job, if any. */
  ghost function FirstTaking(levels: seq<Level>, free: map<string, int>, req: JobRequest): string {
    if levels == [] then ""
    else
      var before := FirstTaking(levels[..|levels| - 1], free, req);
      var last := levels[|levels| - 1];
      if before == "" && SomeGroupTakes(last, free, req) then last.name else before
  }

  method FitLevel(level: Level, free: map<string, int>, req: JobRequest) returns (at: LevelFit)
    ensures at == FitAt(level, free, req)
  {
    var groups: seq<string> := [];
    for i := 0 to |level.groups|
      invariant groups == TakingValues(level.groups[..i], free, req)
    {
      PrefixSnoc(level.groups, i);
      var vector := FreeOfGroup(level.groups[i], free);
      var fits := Fits(vector, req.pods, req.gpusPerPod);
      if fits { groups := groups + [level.groups[i].value]; }
    }
    WholePrefix(level.groups);
    at := LevelFit(level.name, level.tag, Sort(groups, StrLe));
  }

  method FitJob(levels: seq<Level>, req: JobRequest, nodes: seq<GPUNode>) returns (fit: JobFit)
    ensures fit.request == req
    ensures |fit.levels| == |levels|
    ensures forall i :: 0 <= i < |levels| ==> fit.levels[i] == FitAt(levels[i], FreeByName(nodes), req)
    ensures fit.smallest == FirstTaking(levels, FreeByName(nodes), req)
    ensures fit.excluded == Sort(Names(Filter(nodes, EXCLUDED)), StrLe)
  {
    var free, excluded := PlaceableNodes(nodes);
    var fits: seq<LevelFit> := [];
    var smallest := "";
    for i := 0 to |levels|
      invariant |fits| == i
      invariant forall k :: 0 <= k < i ==> fits[k] == FitAt(levels[k], free, req)
      invariant smallest == FirstTaking(levels[..i], free, req)
    {
      PrefixSnoc(levels, i);
      var at := FitLevel(levels[i], free, req);
      NonemptyWhenTaken(levels[i].groups, free, req);
      SortPermutes(TakingValues(levels[i].groups, free, req), StrLe);
      if smallest == "" && |at.groups| > 0 { smallest := levels[i].name; }
      fits := fits + [at];
    }
    WholePrefix(levels);
    fit := JobFit(req, fits, smallest, excluded);
  }

  // ----- the narrowest level -----

  /** When no level is nameless, the answer is the first level that takes the job,
      and there is none only when no level does. */
  lemma {:induction false} FirstTakingIsNarrowest(levels: seq<Level>, free: map<string, int>, req: JobRequest)
    requires forall l :: l in levels ==> l.name != ""
    ensures FirstTaking(levels, free, req) == "" <==> forall l :: l in levels ==> !SomeGroupTakes(l, free, req)
    ensures FirstTaking(levels, free, req) != "" ==>
      exists i :: 0 <= i < |levels| && levels[i].name == FirstTaking(levels, free, req)
        && SomeGroupTakes(levels[i], free, req)
        && forall j :: 0 <= j < i ==> !SomeGroupTakes(levels[j], free, req)
  {
    if levels != [] {
      var init, last := levels[..|levels| - 1], levels[|levels| - 1];
      assert levels == init + [last];
      FirstTakingIsNarrowest(init, free, req);
      if FirstTaking(init, free, req) != "" {
        var i :| 0 <= i < |init| && init[i].name == FirstTaking(init, free, req)
          && SomeGroupTakes(init[i], free, req)
          && forall j :: 0 <= j < i ==> !SomeGroupTakes(init[j], free, req);
        assert levels[i] == init[i];
        assert forall j :: 0 <= j < i ==> levels[j] == init[j];
      } else {
        assert forall j :: 0 <= j < |init| ==> levels[j] == init[j] && init[j] in init;
        if SomeGroupTakes(last, free, req) { assert levels[|init|] == last; }
      }
    }
  }

  // ----- a wider group takes whatever a narrower one takes -----

  lemma FreeVectorSnoc(names: seq<string>, x: string, free: map<string, int>)
    ensures FreeVector(names + [x], free) ==
      if x in free then FreeVector(names, free) + [free[x]] else FreeVector(names, free)
  {
    assert (names + [x])[..|names|] == names;
  }

  function RoomOn(x: string, free: map<string, int>, size: int): nat
    requires size > 0
  {
    if x in free then Capacity(free[x], size) else 0
  }

  /** Taking one name out of a list of distinct names takes its room out. */
  lemma {:induction false} RoomWithout(names: seq<string>, x: string, free: map<string, int>, size: int) returns (rest: seq<string>)
    requires size > 0 && Distinct(names) && x in names
    ensures Distinct(rest) && forall y :: y in rest <==> y in names && y != x
    ensures Room(FreeVector(names, free), size) == Room(FreeVector(rest, free), size) + RoomOn(x, free, size)
  {
    var init, last := names[..|names| - 1], names[|names| - 1];
    assert names == init + [last];
    DistinctSnoc(init, last);
    FreeVectorSnoc(init, last, free);
    if last in free { RoomSnoc(FreeVector(init, free), free[last], size); }
    if last == x {
      rest := init;
    } else {
      var inner := RoomWithout(init, x, free, size);
      rest := inner + [last];
      FreeVectorSnoc(inner, last, free);
      if last in free { RoomSnoc(FreeVector(inner, free), free[last], size); }
    }
  }

  lemma {:induction false} MoreNodesMoreRoom(a: seq<string>, b: seq<string>, free: map<string, int>, size: int)
    requires size > 0 && Distinct(a) && Distinct(b) && forall x :: x in a ==> x in b
    ensures Room(FreeVector(a, free), size) <= Room(FreeVector(b, free), size)
    decreases |a|
  {
    if a != [] {
      var init, last := a[..|a| - 1], a[|a| - 1];
      assert a == init + [last];
      DistinctSnoc(init, last);
      var rest := RoomWithout(b, last, free, size);
      MoreNodesMoreRoom(init, rest, free, size);
      FreeVectorSnoc(init, last, free);
      if last in free { RoomSnoc(FreeVector(init, free), free[last], size); }
    }
  }

  lemma WiderTakes(a: Group, b: Group, free: map<string, int>, req: JobRequest)
    requires Takes(a, free, req)
    requires Distinct(a.nodes) && Distinct(b.nodes) && forall x :: x in a.nodes ==> x in b.nodes
    ensures Takes(b, free, req)
  {
    CanPlaceIsRoom(FreeVector(a.nodes, free), req.pods, req.gpusPerPod);
    CanPlaceIsRoom(FreeVector(b.nodes, free), req.pods, req.gpusPerPod);
    MoreNodesMoreRoom(a.nodes, b.nodes, free, req.gpusPerPod);
  }

  /** Every group of a report names some of the cluster's nodes, each once. */
  lemma {:induction false} ClassNames(nodes: seq<GPUNode>, keep: GPUNode -> bool)
    requires Distinct(Names(nodes))
    ensures Distinct(Names(Filter(nodes, keep)))
    ensures forall x :: x in Names(Filter(nodes, keep)) ==> x in Names(nodes)
  {
    if nodes != [] {
      var init, last := nodes[..|nodes| - 1], nodes[|nodes| - 1];
      assert nodes == init + [last];
      assert Names(nodes) == Names(init) + [last.name];
      DistinctSnoc(Names(init), last.name);
      ClassNames(init, keep);
      FilterSnoc(init, last, keep);
      if keep(last) { assert Names(Filter(nodes, keep)) == Names(Filter(init, keep)) + [last.name]; }
    }
  }

  /** Some nodes of the cluster, each once, are what a group names. */
  ghost predicate Members(members: seq<GPUNode>, nodes: seq<GPUNode>) {
    Distinct(Names(members)) && forall x :: x in Names(members) ==> x in Names(nodes)
  }

  lemma NamesOfSummary(g: Group, value: string, members: seq<GPUNode>, nodes: seq<GPUNode>)
    requires Members(members, nodes) && g.nodes == Sort(Names(members), StrLe)
    ensures Distinct(g.nodes) && forall x :: x in g.nodes ==> x in Names(nodes)
  {
    SortDistinct(Names(members), StrLe);
    SortMembers(Names(members), StrLe);
  }

  lemma GroupNames(groups: seq<Group>, key: LevelKey, nodes: seq<GPUNode>, g: Group)
    requires GroupsOfLevel(groups, key, nodes) && Distinct(Names(nodes)) && g in groups
    ensures Distinct(g.nodes) && forall x :: x in g.nodes ==> x in Names(nodes)
  {
    var members := GroupMembers(groups, key, nodes, g);
    NamesOfSummary(g, g.value, members, nodes);
  }

  lemma GroupMembers(groups: seq<Group>, key: LevelKey, nodes: seq<GPUNode>, g: Group) returns (members: seq<GPUNode>)
    requires GroupsOfLevel(groups, key, nodes) && Distinct(Names(nodes)) && g in groups
    ensures Members(members, nodes) && g.nodes == Sort(Names(members), StrLe)
  {
    match key.source {
      case Node => members := NodeGroupMembers(groups, nodes, g);
      case Cluster => members := nodes;
      case _ => members := ClassMembers(groups, key.tag, nodes, g);
    }
  }

  lemma NodeGroupMembers(groups: seq<Group>, nodes: seq<GPUNode>, g: Group) returns (members: seq<GPUNode>)
    requires OnePerNode(groups, nodes) && g in groups
    ensures Members(members, nodes) && g.nodes == Sort(Names(members), StrLe)
  {
    var n :| n in nodes && Summarises(g, n.name, [n]);
    members := [n];
    SingleMember(n, nodes);
  }

  lemma SingleMember(n: GPUNode, nodes: seq<GPUNode>)
    requires n in nodes
    ensures Members([n], nodes)
  {
    NamesOfMembers(nodes);
    assert Names([n]) == [n.name];
  }

  lemma ClassMembers(groups: seq<Group>, key: string, nodes: seq<GPUNode>, g: Group) returns (members: seq<GPUNode>)
    requires EachSummarises(groups, nodes, key) && Distinct(Names(nodes)) && g in groups
    ensures Members(members, nodes) && g.nodes == Sort(Names(members), StrLe)
  {
    members := Class(nodes, key, g.value);
    ClassNames(nodes, Carries(key, g.value));
    var i :| 0 <= i < |groups| && groups[i] == g;
    assert Summarises(groups[i], groups[i].value, Class(nodes, key, groups[i].value));
  }

  // ----- the whole question, end to end -----

  lemma NamesOfMembers(nodes: seq<GPUNode>)
    ensures forall n :: n in nodes ==> n.name in Names(nodes)
  {
    forall n | n in nodes ensures n.name in Names(nodes) {
      var i :| 0 <= i < |nodes| && nodes[i] == n;
      assert Names(nodes)[i] == n.name;
    }
  }

  lemma {:induction false} FreeByNameFacts(nodes: seq<GPUNode>)
    requires Distinct(Names(nodes))
    ensures forall x :: x in FreeByName(nodes) ==> x in Names(nodes)
    ensures forall n :: n in nodes ==> (n.name in FreeByName(nodes) <==> Placeable(n))
    ensures forall n :: n in nodes && Placeable(n) ==> FreeByName(nodes)[n.name] == FreeOn(n)
  {
    if nodes != [] {
      var init, last := nodes[..|nodes| - 1], nodes[|nodes| - 1];
      assert nodes == init + [last];
      assert Names(nodes) == Names(init) + [last.name];
      DistinctSnoc(Names(init), last.name);
      FreeByNameFacts(init);
      NamesOfMembers(init);
    }
  }

  /** The free GPUs of every node a pod can land on. */
  function PlaceableFree(nodes: seq<GPUNode>): seq<int> {
    if nodes == [] then []
    else if Placeable(nodes[|nodes| - 1]) then PlaceableFree(nodes[..|nodes| - 1]) + [FreeOn(nodes[|nodes| - 1])]
    else PlaceableFree(nodes[..|nodes| - 1])
  }

  lemma {:induction false} VectorOfNodes(nodes: seq<GPUNode>, all: seq<GPUNode>)
    requires Distinct(Names(all)) && forall n :: n in nodes ==> n in all
    ensures FreeVector(Names(nodes), FreeByName(all)) == PlaceableFree(nodes)
  {
    FreeByNameFacts(all);
    if nodes != [] {
      var init, last := nodes[..|nodes| - 1], nodes[|nodes| - 1];
      VectorOfNodes(init, all);
      assert Names(nodes) == Names(init) + [last.name];
      FreeVectorSnoc(Names(init), last.name, FreeByName(all));
    }
  }

  ghost predicate NarrowestTaking(levels: seq<Level>, name: string, free: map<string, int>, req: JobRequest) {
    exists i :: 0 <= i < |levels| && levels[i].name == name && SomeGroupTakes(levels[i], free, req)
      && forall j :: 0 <= j < i ==> !SomeGroupTakes(levels[j], free, req)
  }

  ghost predicate PlaceableSomewhere(nodes: seq<GPUNode>, req: JobRequest) {
    req.pods > 0 && req.gpusPerPod > 0 && CanPlace(PlaceableFree(nodes), req.pods, req.gpusPerPod)
  }

  /** The answer over a report built from these nodes: the narrowest level with a
      group that takes the job, and none exactly when the job cannot be placed on
      the placeable nodes of the cluster at all. */
  lemma SmallestIsNarrowest(levels: seq<Level>, topologies: seq<KueueTopology>, nodes: seq<GPUNode>, req: JobRequest)
    requires IsReportOf(levels, nodes, topologies) && NoEmptyLabels(topologies)
    requires Distinct(Names(nodes))
    ensures FirstTaking(levels, FreeByName(nodes), req) == "" <==> !PlaceableSomewhere(nodes, req)
    ensures PlaceableSomewhere(nodes, req) ==>
      NarrowestTaking(levels, FirstTaking(levels, FreeByName(nodes), req), FreeByName(nodes), req)
    ensures FirstTaking(levels, FreeByName(nodes), req) != "" <==> exists assign :: RunsOn(assign, nodes, req)
  {
    PlaceableInFields(nodes, req);
    var free := FreeByName(nodes);
    var keys :| AreLevels(keys, nodes, topologies) && IsReport(levels, keys, nodes);
    var tiers :| LevelsInOrder(keys, tiers, nodes, topologies);
    LevelsAreNamed(levels, keys, tiers, topologies, nodes);
    FirstTakingIsNarrowest(levels, free, req);
    SomeLevelIffPlaceable(levels, keys, tiers, topologies, nodes, req);
  }

  lemma SomeLevelIffPlaceable(levels: seq<Level>, keys: seq<LevelKey>, tiers: seq<LevelKey>,
                              topologies: seq<KueueTopology>, nodes: seq<GPUNode>, req: JobRequest)
    requires LevelsInOrder(keys, tiers, nodes, topologies) && IsReport(levels, keys, nodes)
    requires Distinct(Names(nodes))
    ensures (exists l :: l in levels && SomeGroupTakes(l, FreeByName(nodes), req)) <==> PlaceableSomewhere(nodes, req)
  {
    var free := FreeByName(nodes);
    var last := |keys| - 1;
    assert keys[last] == CLUSTER_KEY && IsLevel(levels[last], keys[last], nodes) && levels[last] in levels;
    ClusterTakesIffPlaceable(levels[last].groups, nodes, req);
    forall l | l in levels && SomeGroupTakes(l, free, req) ensures PlaceableSomewhere(nodes, req) {
      var i :| 0 <= i < |levels| && levels[i] == l;
      var g :| g in l.groups && Takes(g, free, req);
      assert IsLevel(levels[i], keys[i], nodes);
      GroupNames(l.groups, keys[i], nodes, g);
      TakenIsPlaceable(nodes, g, req);
    }
  }

  lemma LevelsAreNamed(levels: seq<Level>, keys: seq<LevelKey>, tiers: seq<LevelKey>,
                       topologies: seq<KueueTopology>, nodes: seq<GPUNode>)
    requires LevelsInOrder(keys, tiers, nodes, topologies) && NoEmptyLabels(topologies)
    requires IsReport(levels, keys, nodes)
    ensures forall l :: l in levels ==> l.name != ""
  {
    var named := [NODE_KEY] + FixedKeys(LabelsInUse(nodes)) + tiers;
    var taken := Taken(Walk(topologies), TagSet(named), nodes);
    TakenFacts(Walk(topologies), TagSet(named), nodes);
    forall k | k in keys ensures k.name != "" {
      if k in KueueKeys(taken) {
        var i :| 0 <= i < |taken| && KueueKeys(taken)[i] == k;
        assert taken[i] in taken;
      } else if k in tiers {
        assert |k.name| == |k.tag| - |"fabric.topograph.run/"|;
      }
    }
    forall l | l in levels ensures l.name != "" {
      var i :| 0 <= i < |levels| && levels[i] == l;
      assert IsLevel(levels[i], keys[i], nodes) && keys[i] in keys;
    }
  }

  /** What a group of some of the cluster's nodes takes can be placed in the cluster. */
  lemma TakenIsPlaceable(nodes: seq<GPUNode>, g: Group, req: JobRequest)
    requires Distinct(Names(nodes)) && Takes(g, FreeByName(nodes), req)
    requires Distinct(g.nodes) && forall x :: x in g.nodes ==> x in Names(nodes)
    ensures PlaceableSomewhere(nodes, req)
  {
    CanPlaceIsRoom(FreeVector(g.nodes, FreeByName(nodes)), req.pods, req.gpusPerPod);
    MoreNodesMoreRoom(g.nodes, Names(nodes), FreeByName(nodes), req.gpusPerPod);
    VectorOfNodes(nodes, nodes);
    CanPlaceIsRoom(PlaceableFree(nodes), req.pods, req.gpusPerPod);
  }

  lemma ClusterTakesWhatIsPlaceable(g: Group, nodes: seq<GPUNode>, req: JobRequest)
    requires Distinct(Names(nodes)) && g.nodes == Sort(Names(nodes), StrLe)
    requires PlaceableSomewhere(nodes, req)
    ensures Takes(g, FreeByName(nodes), req)
  {
    SortDistinct(Names(nodes), StrLe);
    SortMembers(Names(nodes), StrLe);
    CanPlaceIsRoom(PlaceableFree(nodes), req.pods, req.gpusPerPod);
    VectorOfNodes(nodes, nodes);
    MoreNodesMoreRoom(Names(nodes), g.nodes, FreeByName(nodes), req.gpusPerPod);
    CanPlaceIsRoom(FreeVector(g.nodes, FreeByName(nodes)), req.pods, req.gpusPerPod);
  }

  lemma ClusterTakesIffPlaceable(groups: seq<Group>, nodes: seq<GPUNode>, req: JobRequest)
    requires WholeCluster(groups, nodes) && Distinct(Names(nodes))
    ensures (exists g :: g in groups && Takes(g, FreeByName(nodes), req)) <==> PlaceableSomewhere(nodes, req)
  {
    if nodes == [] {
      if PlaceableSomewhere(nodes, req) { CanPlaceIsRoom([], req.pods, req.gpusPerPod); }
    } else {
      var g := groups[0];
      assert g in groups;
      NamesOfSummary(g, LEVEL_CLUSTER, nodes, nodes);
      if Takes(g, FreeByName(nodes), req) { TakenIsPlaceable(nodes, g, req); }
      if PlaceableSomewhere(nodes, req) { ClusterTakesWhatIsPlaceable(g, nodes, req); }
    }
  }

  // ----- the answer in the fields of the nodes -----

  /** The assignment puts every pod on a node that is ready, schedulable and known, and
      leaves no such node with more GPUs asked for than it has. */
  ghost predicate RunsOn(assign: seq<nat>, nodes: seq<GPUNode>, req: JobRequest) {
    && req.pods > 0 && req.gpusPerPod > 0 && |assign| == req.pods
    && (forall k :: 0 <= k < |assign| ==> assign[k] < |nodes|)
    && (forall k :: 0 <= k < |assign| ==>
          var n := nodes[assign[k]]; n.ready && !n.unschedulable && n.requestedKnown)
    && (forall j :: 0 <= j < |nodes| && j in assign ==>
          nodes[j].requested + multiset(assign)[j] * req.gpusPerPod <= nodes[j].allocatable)
  }

  predicate CanLand(n: GPUNode) { n.ready && !n.unschedulable && n.requestedKnown }

  /** What each node has for a pod, place by place; nothing on a node no pod can land on. */
  function LeftOn(nodes: seq<GPUNode>): seq<int> {
    if nodes == [] then []
    else
      var n := nodes[|nodes| - 1];
      LeftOn(nodes[..|nodes| - 1]) + [if CanLand(n) then n.allocatable - n.requested else -1]
  }

  lemma {:induction false} LeftOnEach(nodes: seq<GPUNode>)
    ensures |LeftOn(nodes)| == |nodes|
    ensures forall i :: 0 <= i < |nodes| ==>
      LeftOn(nodes)[i] == if CanLand(nodes[i]) then nodes[i].allocatable - nodes[i].requested else -1
  {
    if nodes != [] { LeftOnEach(nodes[..|nodes| - 1]); }
  }

  lemma {:induction false} LeftIsRoom(nodes: seq<GPUNode>, size: int)
    requires size > 0
    ensures Room(LeftOn(nodes), size) == Room(PlaceableFree(nodes), size)
  {
    if nodes != [] {
      var init, n := nodes[..|nodes| - 1], nodes[|nodes| - 1];
      LeftIsRoom(init, size);
      RoomSnoc(LeftOn(init), if CanLand(n) then n.allocatable - n.requested else -1, size);
      if Placeable(n) { RoomSnoc(PlaceableFree(init), FreeOn(n), size); }
    }
  }

  lemma RunsArePlacements(assign: seq<nat>, nodes: seq<GPUNode>, req: JobRequest)
    requires req.pods > 0 && req.gpusPerPod > 0
    ensures RunsOn(assign, nodes, req) <==> Places(assign, LeftOn(nodes), req.pods, req.gpusPerPod)
  {
    LeftOnEach(nodes);
    if Places(assign, LeftOn(nodes), req.pods, req.gpusPerPod) {
      forall k | 0 <= k < |assign| ensures CanLand(nodes[assign[k]]) {
        assert assign[k] in assign && Load(assign, assign[k]) > 0;
        SomeLoad(Load(assign, assign[k]), req.gpusPerPod);
      }
    }
    forall j | 0 <= j < |nodes| ensures j in assign <==> Load(assign, j) > 0 {}
    if RunsOn(assign, nodes, req) {
      forall j | 0 <= j < |nodes| && Load(assign, j) > 0 ensures Load(assign, j) * req.gpusPerPod <= LeftOn(nodes)[j] {
        assert j in assign;
        var k :| 0 <= k < |assign| && assign[k] == j;
      }
    }
  }

  lemma SomeLoad(load: nat, size: int)
    requires load > 0 && size > 0
    ensures load * size > 0
  {}

  /** A job can be placed exactly when some assignment runs it. */
  lemma PlaceableInFields(nodes: seq<GPUNode>, req: JobRequest)
    ensures PlaceableSomewhere(nodes, req) <==> exists assign :: RunsOn(assign, nodes, req)
  {
    if req.pods > 0 && req.gpusPerPod > 0 {
      CanPlaceIsRoom(PlaceableFree(nodes), req.pods, req.gpusPerPod);
      CanPlaceIsRoom(LeftOn(nodes), req.pods, req.gpusPerPod);
      LeftIsRoom(nodes, req.gpusPerPod);
      forall assign ensures RunsOn(assign, nodes, req) <==> Places(assign, LeftOn(nodes), req.pods, req.gpusPerPod) {
        RunsArePlacements(assign, nodes, req);
      }
    }
  }

  /** A group takes a job exactly when some assignment runs it on the group's nodes. */
  lemma TakesInFields(g: Group, members: seq<GPUNode>, nodes: seq<GPUNode>, req: JobRequest)
    requires Distinct(Names(nodes)) && Distinct(Names(members)) && forall n :: n in members ==> n in nodes
    requires g.nodes == Sort(Names(members), StrLe)
    ensures Takes(g, FreeByName(nodes), req) <==> exists assign :: RunsOn(assign, members, req)
  {
    PlaceableInFields(members, req);
    if req.pods > 0 && req.gpusPerPod > 0 {
      var free := FreeByName(nodes);
      NamesOfSummary(g, g.value, members, members);
      SortMembers(Names(members), StrLe);
      MoreNodesMoreRoom(g.nodes, Names(members), free, req.gpusPerPod);
      MoreNodesMoreRoom(Names(members), g.nodes, free, req.gpusPerPod);
      VectorOfNodes(members, nodes);
      CanPlaceIsRoom(FreeVector(g.nodes, free), req.pods, req.gpusPerPod);
      CanPlaceIsRoom(PlaceableFree(members), req.pods, req.gpusPerPod);
    }
  }

  // ----- a group total bounds what the group takes -----

  lemma {:induction false} RoomWithinFree(nodes: seq<GPUNode>, size: int)
    requires size > 0
    ensures Room(PlaceableFree(nodes), size) * size <= SumOf(nodes, FREE)
  {
    if nodes != [] {
      var init, last := nodes[..|nodes| - 1], nodes[|nodes| - 1];
      RoomWithinFree(init, size);
      if Placeable(last) {
        RoomSnoc(PlaceableFree(init), FreeOn(last), size);
        assert Capacity(FreeOn(last), size) * size <= FreeOn(last);
        assert Room(PlaceableFree(nodes), size) * size ==
          Room(PlaceableFree(init), size) * size + Capacity(FreeOn(last), size) * size;
      }
    }
  }

  /** A fully known group that takes a job has at least the job's GPUs free. */
  lemma TakingGroupHasTheGPUs(g: Group, members: seq<GPUNode>, nodes: seq<GPUNode>, value: string, req: JobRequest)
    requires Distinct(Names(nodes)) && Distinct(Names(members)) && forall n :: n in members ==> n in nodes
    requires Summarises(g, value, members) && g.requestedKnown
    requires Takes(g, FreeByName(nodes), req)
    ensures g.free >= req.pods * req.gpusPerPod
  {
    var free := FreeByName(nodes);
    NamesOfSummary(g, value, members, members);
    MoreNodesMoreRoom(g.nodes, Names(members), free, req.gpusPerPod);
    VectorOfNodes(members, nodes);
    CanPlaceIsRoom(FreeVector(g.nodes, free), req.pods, req.gpusPerPod);
    RoomWithinFree(members, req.gpusPerPod);
    RoomCovers(req.pods, Room(PlaceableFree(members), req.gpusPerPod), req.gpusPerPod);
  }

  lemma RoomCovers(pods: int, room: nat, size: int)
    requires size > 0 && pods <= room
    ensures pods * size <= room * size
  {}
}
