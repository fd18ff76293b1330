/**
 pkg/mustgather/complete.go, pkg/mustgather/collector.go and pkg/source/bundle.go:
 what the gather writes about pods, and what a reader of the bundle gets back.
 Files are modelled by the lists they hold.
 */
module BundleReplay {
  import opened Prefixes
  import opened Requested
  import opened Wrappers
  import opened Sorting

  // ----- the gather -----

  function ProjectContainer(c: Container): Container {
    Container(c.name, c.requests, c.limits, c.restart, "")
  }

  function ProjectContainers(cs: seq<Container>): seq<Container> {
    if cs == [] then [] else ProjectContainers(cs[..|cs| - 1]) + [ProjectContainer(cs[|cs| - 1])]
  }

  function ProjectGPUPod(p: Pod): Pod {
    Pod(p.namespace, p.name, p.uid, p.labels, p.owners, map[],
        PodSpec(p.spec.nodeName, p.spec.overhead, ProjectContainers(p.spec.containers),
                ProjectContainers(p.spec.initContainers), ""),
        p.phase)
  }

  /** --node as a predicate; the empty string is no filter. */
  function OnNode(node: string): Pod -> bool { (p: Pod) => node == "" || p.spec.nodeName == node }

  function InNamespace(namespace: string): Pod -> bool { (p: Pod) => p.namespace == namespace }

  function AsksForGPUs(): Pod -> bool { (p: Pod) => Request(p.spec) > 0 }

  function ProjectAll(pods: seq<Pod>): seq<Pod> {
    if pods == [] then [] else ProjectAll(pods[..|pods| - 1]) + [ProjectGPUPod(pods[|pods| - 1])]
  }

  /** gpu_pods.yaml, from what the API server listed. */
  function GpuFile(listed: seq<Pod>, node: string): seq<Pod> {
    ProjectAll(Filter(Filter(listed, OnNode(node)), AsksForGPUs()))
  }

  /** gpu_operand_pods.yaml, from the pods of the cluster. */
  function OperandFile(pods: seq<Pod>, operatorNamespace: string, node: string): seq<Pod> {
    Filter(Filter(pods, InNamespace(operatorNamespace)), OnNode(node))
  }

  method PodsOnNode(pods: seq<Pod>, node: string) returns (kept: seq<Pod>)
    ensures kept == Filter(pods, OnNode(node))
    ensures forall p :: p in kept <==> p in pods && (node == "" || p.spec.nodeName == node)
  {
    FilterMembers(pods, OnNode(node));
    if node == "" {
      FilterAll(pods, OnNode(node));
      return pods;
    }
    kept := [];
    for i := 0 to |pods|
      invariant kept == Filter(pods[..i], OnNode(node))
    {
      PrefixSnoc(pods, i);
      FilterSnoc(pods[..i], pods[i], OnNode(node));
      if pods[i].spec.nodeName == node { kept := kept + [pods[i]]; }
    }
    WholePrefix(pods);
  }

  method GatherGPUPods(listed: seq<Pod>, node: string) returns (kept: seq<Pod>)
    ensures kept == GpuFile(listed, node)
    ensures forall q :: q in kept <==>
      exists p :: p in listed && (node == "" || p.spec.nodeName == node) && Request(p.spec) > 0 && q == ProjectGPUPod(p)
  {
    GpuFileMembers(listed, node);
    var wanted := PodsOnNode(listed, node);
    kept := [];
    for i := 0 to |wanted|
      invariant kept == ProjectAll(Filter(wanted[..i], AsksForGPUs()))
    {
      PrefixSnoc(wanted, i);
      FilterSnoc(wanted[..i], wanted[i], AsksForGPUs());
      var asks := PodSpecGPURequest(Some(wanted[i].spec));
      if asks > 0 {
        ProjectAllSnoc(Filter(wanted[..i], AsksForGPUs()), wanted[i]);
        kept := kept + [ProjectGPUPod(wanted[i])];
      }
    }
    WholePrefix(wanted);
  }

  lemma {:induction false} ProjectAllMembers(pods: seq<Pod>)
    ensures forall q :: q in ProjectAll(pods) <==> exists p :: p in pods && q == ProjectGPUPod(p)
  {
    if pods != [] {
      var init, last := pods[..|pods| - 1], pods[|pods| - 1];
      ProjectAllMembers(init);
      assert pods == init + [last];
    }
  }

  lemma GpuFileMembers(listed: seq<Pod>, node: string)
    ensures forall q :: q in GpuFile(listed, node) <==>
      exists p :: p in listed && (node == "" || p.spec.nodeName == node) && Request(p.spec) > 0 && q == ProjectGPUPod(p)
  {
    FilterMembers(listed, OnNode(node));
    FilterMembers(Filter(listed, OnNode(node)), AsksForGPUs());
    ProjectAllMembers(Filter(Filter(listed, OnNode(node)), AsksForGPUs()));
  }

  /** The operand file: the pods of the operator namespace on the wanted node. */
  lemma OperandFileMembers(pods: seq<Pod>, operatorNamespace: string, node: string)
    ensures forall p :: p in OperandFile(pods, operatorNamespace, node) <==>
      p in pods && p.namespace == operatorNamespace && (node == "" || p.spec.nodeName == node)
  {
    FilterMembers(pods, InNamespace(operatorNamespace));
    FilterMembers(Filter(pods, InNamespace(operatorNamespace)), OnNode(node));
  }

  // ----- the reader -----

  datatype FileRead = Loaded(pods: seq<Pod>) | Unreadable | Structural

  /** A complete list, a list with a partial-read error, or an error alone. */
  datatype PodsAnswer = Complete(pods: seq<Pod>) | PartialList(pods: seq<Pod>) | OperandsMissing | BundleBroken

  function Key(p: Pod): string { p.namespace + "/" + p.name }

  function Keys(pods: seq<Pod>): set<string> { set p | p in pods :: Key(p) }

  /** The first pod under each key, in order. */
  function FirstByKey(pods: seq<Pod>): seq<Pod> {
    if pods == [] then []
    else
      var init, last := pods[..|pods| - 1], pods[|pods| - 1];
      if Key(last) in Keys(init) then FirstByKey(init) else FirstByKey(init) + [last]
  }

  function Wanted(namespace: string, selector: map<string, string> -> bool): Pod -> bool {
    (p: Pod) => (namespace == "" || p.namespace == namespace) && selector(p.labels)
  }

  /** p is the first pod of its namespace and name. */
  ghost predicate IsFirst(pods: seq<Pod>, p: Pod) {
    exists i :: 0 <= i < |pods| && pods[i] == p &&
      forall j :: 0 <= j < i ==> pods[j].namespace + "/" + pods[j].name != p.namespace + "/" + p.name
  }

  lemma IsFirstSnoc(pods: seq<Pod>, x: Pod)
    ensures forall p :: IsFirst(pods + [x], p) <==> IsFirst(pods, p) || (p == x && Key(x) !in Keys(pods))
  {
    var all := pods + [x];
    forall p | IsFirst(pods, p) ensures IsFirst(all, p) {
      var i :| 0 <= i < |pods| && pods[i] == p && forall j :: 0 <= j < i ==> pods[j].namespace + "/" + pods[j].name != p.namespace + "/" + p.name;
      assert all[i] == p && forall j :: 0 <= j < i ==> all[j] == pods[j];
    }
    if Key(x) !in Keys(pods) {
      forall j | 0 <= j < |pods| ensures Key(all[j]) != Key(x) { assert pods[j] in pods; }
      assert all[|pods|] == x;
    }
    forall p | IsFirst(all, p) ensures IsFirst(pods, p) || (p == x && Key(x) !in Keys(pods)) {
      var i :| 0 <= i < |all| && all[i] == p && forall j :: 0 <= j < i ==> all[j].namespace + "/" + all[j].name != p.namespace + "/" + p.name;
      if i < |pods| {
        assert pods[i] == p && forall j :: 0 <= j < i ==> pods[j] == all[j];
      } else {
        forall q | q in pods ensures Key(q) != Key(x) {
          var j :| 0 <= j < |pods| && pods[j] == q;
          assert all[j] == q;
        }
      }
    }
  }

  lemma {:induction false} FirstByKeyMembers(pods: seq<Pod>)
    ensures forall p :: p in FirstByKey(pods) <==> IsFirst(pods, p)
  {
    if pods != [] {
      var init, last := pods[..|pods| - 1], pods[|pods| - 1];
      FirstByKeyMembers(init);
      IsFirstSnoc(init, last);
      assert pods == init + [last];
    }
  }

  /** What the two files say together: of each namespace and name the first pod, if it is
      of the namespace asked for and its labels are selected. */
  lemma MergedInFields(all: seq<Pod>, namespace: string, selector: map<string, string> -> bool)
    ensures forall p :: p in Filter(FirstByKey(all), Wanted(namespace, selector)) <==>
      IsFirst(all, p) && (namespace == "" || p.namespace == namespace) && selector(p.labels)
  {
    FirstByKeyMembers(all);
    FilterMembers(FirstByKey(all), Wanted(namespace, selector));
  }

  lemma Regroup(a: seq<Pod>, b: seq<Pod>, c: seq<Pod>)
    ensures a + (b + c) == a + b + c
  {}

  lemma MergeNext(done: seq<Pod>, p: Pod, wanted: Pod -> bool)
    ensures Keys(done + [p]) == Keys(done) + {Key(p)}
    ensures Filter(FirstByKey(done + [p]), wanted) ==
      if Key(p) in Keys(done) || !wanted(p) then Filter(FirstByKey(done), wanted) else Filter(FirstByKey(done), wanted) + [p]
  {
    FirstByKeySnoc(done, p);
    FilterSnoc(FirstByKey(done), p, wanted);
    KeysSnoc(done, p);
  }

  /** One of the two recorded lists, merged behind what was taken before it. */
  method AddSource(source: seq<Pod>, seen0: set<string>, out0: seq<Pod>, ghost before: seq<Pod>,
                   namespace: string, selector: map<string, string> -> bool)
    returns (seen: set<string>, out: seq<Pod>)
    requires seen0 == Keys(before) && out0 == Filter(FirstByKey(before), Wanted(namespace, selector))
    ensures seen == Keys(before + source)
    ensures out == Filter(FirstByKey(before + source), Wanted(namespace, selector))
  {
    seen, out := seen0, out0;
    ghost var done, wanted := before, Wanted(namespace, selector);
    assert before + source[..0] == before;
    for i := 0 to |source|
      invariant done == before + source[..i]
      invariant seen == Keys(done) && out == Filter(FirstByKey(done), wanted)
    {
      var p := source[i];
      PrefixSnoc(source, i);
      Regroup(before, source[..i], [p]);
      MergeNext(done, p, wanted);
      done := done + [p];
      if Key(p) in seen { continue; }
      seen := seen + {Key(p)};
      if namespace != "" && p.namespace != namespace { continue; }
      if !selector(p.labels) { continue; }
      out := out + [p];
    }
    WholePrefix(source);
  }

  method RecordedNamespaces(list: seq<Pod>) returns (recorded: set<string>)
    ensures forall ns :: ns in recorded <==> exists p :: p in list && p.namespace == ns
  {
    recorded := {};
    for i := 0 to |list|
      invariant recorded == set p | p in list[..i] :: p.namespace
    {
      PrefixSnoc(list, i);
      recorded := recorded + {list[i].namespace};
    }
    WholePrefix(list);
  }

  method MergeSources(list: seq<Pod>, gpuPods: seq<Pod>, namespace: string, selector: map<string, string> -> bool)
    returns (out: seq<Pod>)
    ensures out == Filter(FirstByKey(list + gpuPods), Wanted(namespace, selector))
  {
    var seen;
    seen, out := AddSource(list, {}, [], [], namespace, selector);
    assert [] + list == list;
    seen, out := AddSource(gpuPods, seen, out, list, namespace, selector);
  }

  method Pods(operand: FileRead, gpu: FileRead, namespace: string, selector: map<string, string> -> bool)
    returns (answer: PodsAnswer)
    ensures operand.Structural? ==> answer == BundleBroken
    ensures operand.Unreadable? ==> answer == OperandsMissing
    ensures operand.Loaded? && gpu.Structural? ==> answer == BundleBroken
    ensures operand.Loaded? && !gpu.Structural? ==>
      var all := operand.pods + if gpu.Loaded? then gpu.pods else [];
      var merged := Filter(FirstByKey(all), Wanted(namespace, selector));
      if (namespace == "" && gpu.Loaded?) || exists p :: p in operand.pods && p.namespace == namespace
      then answer == Complete(merged) else answer == PartialList(merged)
  {
    if operand.Structural? { return BundleBroken; }
    if operand.Unreadable? { return OperandsMissing; }
    if gpu.Structural? { return BundleBroken; }
    var list := operand.pods;
    var gpuPods := if gpu.Loaded? then gpu.pods else [];
    var recorded := RecordedNamespaces(list);
    var out := MergeSources(list, gpuPods, namespace, selector);
    if (namespace == "" && gpu.Loaded?) || namespace in recorded { return Complete(out); }
    return PartialList(out);
  }

  // ----- small facts -----

  lemma {:induction false} FilterAll(pods: seq<Pod>, keep: Pod -> bool)
    requires forall p :: p in pods ==> keep(p)
    ensures Filter(pods, keep) == pods
  {
    if pods != [] {
      FilterAll(pods[..|pods| - 1], keep);
      assert pods == pods[..|pods| - 1] + [pods[|pods| - 1]];
    }
  }

  lemma ProjectAllSnoc(pods: seq<Pod>, p: Pod)
    ensures ProjectAll(pods + [p]) == ProjectAll(pods) + [ProjectGPUPod(p)]
  {
    assert (pods + [p])[..|pods|] == pods;
  }

  lemma FirstByKeySnoc(pods: seq<Pod>, p: Pod)
    ensures FirstByKey(pods + [p]) == if Key(p) in Keys(pods) then FirstByKey(pods) else FirstByKey(pods) + [p]
  {
    assert (pods + [p])[..|pods|] == pods;
  }

  lemma KeysSnoc(pods: seq<Pod>, p: Pod)
    ensures Keys(pods + [p]) == Keys(pods) + {Key(p)}
  {
    assert forall q :: q in pods + [p] <==> q in pods || q == p;
  }

  /** With no slash in a namespace, a key names one namespace and one name. */
  lemma {:induction false} KeyIsInjective(ns: string, name: string, ns': string, name': string)
    requires '/' !in ns && '/' !in ns' && ns + "/" + name == ns' + "/" + name'
    ensures ns == ns' && name == name'
  {
    var s := ns + "/" + name;
    assert s[|ns|] == '/' && s[|ns'|] == '/';
    assert forall i :: 0 <= i < |ns| ==> s[i] == ns[i] && s[i] in ns;
    assert forall i :: 0 <= i < |ns'| ==> s[i] == ns'[i] && s[i] in ns';
    assert s[..|ns|] == ns && s[..|ns'|] == ns';
    assert s[|ns| + 1..] == name && s[|ns'| + 1..] == name';
  }

  // ----- the projection keeps what is counted -----

  lemma {:induction false} ProjectionKeepsTotal(cs: seq<Container>)
    ensures Total(ProjectContainers(cs)) == Total(cs)
  {
    if cs != [] {
      ProjectionKeepsTotal(cs[..|cs| - 1]);
      TotalSnoc(ProjectContainers(cs[..|cs| - 1]), ProjectContainer(cs[|cs| - 1]));
    }
  }

  lemma {:induction false} ProjectionKeepsSidecars(cs: seq<Container>)
    ensures Sidecars(ProjectContainers(cs)) == ProjectContainers(Sidecars(cs))
  {
    if cs != [] {
      var init, last := cs[..|cs| - 1], cs[|cs| - 1];
      ProjectionKeepsSidecars(init);
      assert (ProjectContainers(init) + [ProjectContainer(last)])[..|ProjectContainers(init)|] == ProjectContainers(init);
      if IsRestartable(last) { assert (Sidecars(init) + [last])[..|Sidecars(init)|] == Sidecars(init); }
    }
  }

  lemma {:induction false} ProjectionKeepsInitPeak(cs: seq<Container>)
    ensures InitPeak(ProjectContainers(cs)) == InitPeak(cs)
  {
    if cs != [] {
      var init, last := cs[..|cs| - 1], cs[|cs| - 1];
      ProjectionKeepsInitPeak(init);
      ProjectionKeepsSidecars(init);
      ProjectionKeepsTotal(Sidecars(init));
      assert (ProjectContainers(init) + [ProjectContainer(last)])[..|ProjectContainers(init)|] == ProjectContainers(init);
    }
  }

  lemma ProjectionKeepsRequest(p: Pod)
    ensures Request(ProjectGPUPod(p).spec) == Request(p.spec)
  {
    ProjectionKeepsInitPeak(p.spec.initContainers);
    ProjectionKeepsSidecars(p.spec.initContainers);
    ProjectionKeepsTotal(Sidecars(p.spec.initContainers));
    ProjectionKeepsTotal(p.spec.containers);
  }

  // ----- the projection keeps what is read, and nothing else -----

  ghost predicate SameContainers(cs: seq<Container>, ds: seq<Container>) {
    && |cs| == |ds|
    && forall i :: 0 <= i < |cs| ==>
         cs[i].name == ds[i].name && cs[i].requests == ds[i].requests && cs[i].limits == ds[i].limits && cs[i].restart == ds[i].restart
  }

  /** No reader of a bundle can tell the two pods apart. */
  ghost predicate SameToReader(p: Pod, q: Pod) {
    && p.namespace == q.namespace && p.name == q.name && p.uid == q.uid && p.labels == q.labels && p.owners == q.owners
    && p.spec.nodeName == q.spec.nodeName && p.spec.overhead == q.spec.overhead && p.phase == q.phase
    && SameContainers(p.spec.containers, q.spec.containers)
    && SameContainers(p.spec.initContainers, q.spec.initContainers)
  }

  lemma {:induction false} ContainersProjectEach(cs: seq<Container>)
    ensures |ProjectContainers(cs)| == |cs|
    ensures forall i :: 0 <= i < |cs| ==> ProjectContainers(cs)[i] == ProjectContainer(cs[i])
  {
    if cs != [] { ContainersProjectEach(cs[..|cs| - 1]); }
  }

  lemma ContainersProjectAlike(cs: seq<Container>, ds: seq<Container>)
    ensures ProjectContainers(cs) == ProjectContainers(ds) <==> SameContainers(cs, ds)
  {
    ContainersProjectEach(cs);
    ContainersProjectEach(ds);
    if ProjectContainers(cs) == ProjectContainers(ds) {
      forall i | 0 <= i < |cs| ensures ProjectContainer(cs[i]) == ProjectContainer(ds[i]) {
        assert ProjectContainers(cs)[i] == ProjectContainers(ds)[i];
      }
    }
  }

  /** Two pods project alike exactly when no reader can tell them apart: the projection
      carries all a reader reads, and nothing of a tenant. */
  lemma ProjectAlike(p: Pod, q: Pod)
    ensures ProjectGPUPod(p) == ProjectGPUPod(q) <==> SameToReader(p, q)
    ensures SameToReader(p, ProjectGPUPod(p))
  {
    ContainersProjectAlike(p.spec.containers, q.spec.containers);
    ContainersProjectAlike(p.spec.initContainers, q.spec.initContainers);
    ContainersProjectEach(p.spec.containers);
    ContainersProjectEach(p.spec.initContainers);
  }

  // ----- the round trip -----

  /** One pod per namespace and name, and no namespace with a slash in it. */
  ghost predicate Snapshot(pods: seq<Pod>) {
    && (forall p :: p in pods ==> '/' !in p.namespace)
    && (forall i, j :: 0 <= i < j < |pods| ==> pods[i].namespace != pods[j].namespace || pods[i].name != pods[j].name)
  }

  function NotIn(keys: set<string>): Pod -> bool { (p: Pod) => Key(p) !in keys }

  /** Merging a duplicate-free second list behind a duplicate-free first one drops
      exactly the pods the first one has. */
  lemma {:induction false} MergeTwo(a: seq<Pod>, b: seq<Pod>)
    requires FirstByKey(a) == a && FirstByKey(b) == b
    ensures FirstByKey(a + b) == a + Filter(b, NotIn(Keys(a)))
  {
    if b == [] {
      assert a + b == a;
    } else {
      var init, last := b[..|b| - 1], b[|b| - 1];
      LastIsNew(b);
      MergeTwo(a, init);
      assert b == init + [last];
      Regroup(a, init, [last]);
      FirstByKeySnoc(a + init, last);
      KeysAppend(a, init);
      FilterSnoc(init, last, NotIn(Keys(a)));
      Regroup(a, Filter(init, NotIn(Keys(a))), [last]);
    }
  }

  lemma LastIsNew(b: seq<Pod>)
    requires b != [] && FirstByKey(b) == b
    ensures Key(b[|b| - 1]) !in Keys(b[..|b| - 1]) && FirstByKey(b[..|b| - 1]) == b[..|b| - 1]
  {
    var init, last := b[..|b| - 1], b[|b| - 1];
    FirstByKeyShort(init);
    assert (FirstByKey(init) + [last])[..|FirstByKey(init)|] == FirstByKey(init);
  }

  lemma {:induction false} FirstByKeyShort(pods: seq<Pod>)
    ensures |FirstByKey(pods)| <= |pods|
  {
    if pods != [] { FirstByKeyShort(pods[..|pods| - 1]); }
  }

  lemma KeysAppend(a: seq<Pod>, b: seq<Pod>)
    ensures Keys(a + b) == Keys(a) + Keys(b)
  {
    assert forall p :: p in a + b <==> p in a || p in b;
  }

  lemma {:induction false} DistinctKeysAreKept(pods: seq<Pod>)
    requires forall i, j :: 0 <= i < j < |pods| ==> Key(pods[i]) != Key(pods[j])
    ensures FirstByKey(pods) == pods
  {
    if pods != [] {
      var init, last := pods[..|pods| - 1], pods[|pods| - 1];
      DistinctKeysAreKept(init);
      assert pods == init + [last];
      assert Key(last) !in Keys(init);
    }
  }

  lemma SnapshotKeys(pods: seq<Pod>)
    requires Snapshot(pods)
    ensures forall i, j :: 0 <= i < j < |pods| ==> Key(pods[i]) != Key(pods[j])
  {
    forall i, j | 0 <= i < j < |pods| ensures Key(pods[i]) != Key(pods[j]) {
      if Key(pods[i]) == Key(pods[j]) {
        KeyIsInjective(pods[i].namespace, pods[i].name, pods[j].namespace, pods[j].name);
      }
    }
  }

  /** Filtering keeps keys distinct, and so does projecting. */
  lemma {:induction false} FilesHaveDistinctKeys(pods: seq<Pod>, ns: string, node: string)
    requires Snapshot(pods)
    ensures FirstByKey(OperandFile(pods, ns, node)) == OperandFile(pods, ns, node)
    ensures FirstByKey(GpuFile(pods, node)) == GpuFile(pods, node)
    ensures Keys(OperandFile(pods, ns, node)) + Keys(GpuFile(pods, node)) <= Keys(pods)
  {
    if pods != [] {
      var init, last := pods[..|pods| - 1], pods[|pods| - 1];
      FilesHaveDistinctKeys(init, ns, node);
      SnapshotKeys(pods);
      assert pods == init + [last];
      KeysSnoc(init, last);
      assert Key(last) !in Keys(init);
      OperandFileSnoc(init, last, ns, node);
      GpuFileSnoc(init, last, node);
      FirstByKeySnoc(OperandFile(init, ns, node), last);
      KeysSnoc(OperandFile(init, ns, node), last);
      FirstByKeySnoc(GpuFile(init, node), ProjectGPUPod(last));
      KeysSnoc(GpuFile(init, node), ProjectGPUPod(last));
    }
  }

  lemma OperandFileSnoc(pods: seq<Pod>, p: Pod, ns: string, node: string)
    ensures OperandFile(pods + [p], ns, node) ==
      if InNamespace(ns)(p) && OnNode(node)(p) then OperandFile(pods, ns, node) + [p] else OperandFile(pods, ns, node)
  {
    FilterSnoc(pods, p, InNamespace(ns));
    FilterSnoc(Filter(pods, InNamespace(ns)), p, OnNode(node));
  }

  lemma GpuFileSnoc(pods: seq<Pod>, p: Pod, node: string)
    ensures GpuFile(pods + [p], node) ==
      if OnNode(node)(p) && AsksForGPUs()(p) then GpuFile(pods, node) + [ProjectGPUPod(p)] else GpuFile(pods, node)
  {
    FilterSnoc(pods, p, OnNode(node));
    FilterSnoc(Filter(pods, OnNode(node)), p, AsksForGPUs());
    ProjectAllSnoc(Filter(Filter(pods, OnNode(node)), AsksForGPUs()), p);
  }

  /** Each pod counts once: in the operand file, or, unless it is already there, in
      the GPU file, or nowhere because it holds nothing. */
  lemma {:induction false} EachPodCountsOnce(pods: seq<Pod>, operandKeys: set<string>, ns: string, node: string, asked: string)
    requires node == "" || asked == node
    requires forall p :: p in pods ==> (Key(p) in operandKeys <==> p.namespace == ns && OnNode(node)(p))
    ensures Demand(OperandFile(pods, ns, node), asked) + Demand(Filter(GpuFile(pods, node), NotIn(operandKeys)), asked)
         == Demand(pods, asked)
  {
    if pods != [] {
      var init, last := pods[..|pods| - 1], pods[|pods| - 1];
      assert pods == init + [last];
      EachPodCountsOnce(init, operandKeys, ns, node, asked);
      OnePodMore(init, last, operandKeys, ns, node, asked);
    }
  }

  lemma OnePodMore(pods: seq<Pod>, p: Pod, operandKeys: set<string>, ns: string, node: string, asked: string)
    requires node == "" || asked == node
    requires Key(p) in operandKeys <==> p.namespace == ns && OnNode(node)(p)
    ensures Demand(OperandFile(pods + [p], ns, node), asked) +
            Demand(Filter(GpuFile(pods + [p], node), NotIn(operandKeys)), asked)
         == Demand(OperandFile(pods, ns, node), asked) +
            Demand(Filter(GpuFile(pods, node), NotIn(operandKeys)), asked) + Holds(p, asked)
  {
    var op, gpu, q := OperandFile(pods, ns, node), GpuFile(pods, node), ProjectGPUPod(p);
    OperandFileSnoc(pods, p, ns, node);
    GpuFileSnoc(pods, p, node);
    ProjectionKeepsRequest(p);
    assert Holds(q, asked) == Holds(p, asked);
    if OnNode(node)(p) {
      if p.namespace == ns {
        DemandSnoc(op, p, asked);
        FilterSnoc(gpu, q, NotIn(operandKeys));
      } else if AsksForGPUs()(p) {
        FilterSnoc(gpu, q, NotIn(operandKeys));
        DemandSnoc(Filter(gpu, NotIn(operandKeys)), q, asked);
      }
    }
  }

  lemma OperandKeys(pods: seq<Pod>, ns: string, node: string)
    requires forall p :: p in pods ==> '/' !in p.namespace
    ensures forall p :: p in pods ==>
      (Key(p) in Keys(OperandFile(pods, ns, node)) <==>
        exists q :: q in pods && q.namespace == ns && OnNode(node)(q) && q.name == p.name && p.namespace == ns)
  {
    var file := OperandFile(pods, ns, node);
    FilterMembers(pods, InNamespace(ns));
    FilterMembers(Filter(pods, InNamespace(ns)), OnNode(node));
    forall p | p in pods && Key(p) in Keys(file)
      ensures exists q :: q in pods && q.namespace == ns && OnNode(node)(q) && q.name == p.name && p.namespace == ns
    {
      var q :| q in file && Key(q) == Key(p);
      KeyIsInjective(q.namespace, q.name, p.namespace, p.name);
    }
    forall p, q | p in pods && q in pods && q.namespace == ns && OnNode(node)(q) && q.name == p.name && p.namespace == ns
      ensures Key(p) in Keys(file)
    {
      assert q in file && Key(q) == Key(p);
    }
  }

  /** The demand read back from a bundle is the live demand, of every node, or of
      the named one when the gather was narrowed to it. */
  lemma ReplayAgreesWithLive(pods: seq<Pod>, ns: string, node: string, asked: string)
    requires Snapshot(pods)
    requires node == "" || asked == node
    ensures Demand(FirstByKey(OperandFile(pods, ns, node) + GpuFile(pods, node)), asked) == Demand(pods, asked)
  {
    var a, b := OperandFile(pods, ns, node), GpuFile(pods, node);
    FilesHaveDistinctKeys(pods, ns, node);
    MergeTwo(a, b);
    DemandAppends(a, Filter(b, NotIn(Keys(a))), asked);
    OperandKeys(pods, ns, node);
    forall p | p in pods ensures Key(p) in Keys(a) <==> p.namespace == ns && OnNode(node)(p) {
      if q :| q in pods && q.namespace == ns && OnNode(node)(q) && q.name == p.name && p.namespace == ns {
        var i :| 0 <= i < |pods| && pods[i] == p;
        var j :| 0 <= j < |pods| && pods[j] == q;
        assert i == j;
      }
    }
    EachPodCountsOnce(pods, Keys(a), ns, node, asked);
  }

  /** A field selector the API server honours changes nothing in the file. */
  lemma ServerSelectorDoesNotShow(pods: seq<Pod>, node: string)
    ensures GpuFile(Filter(pods, OnNode(node)), node) == GpuFile(pods, node)
  {
    FilterMembers(pods, OnNode(node));
    FilterAll(Filter(pods, OnNode(node)), OnNode(node));
  }

  /** The whole trip: gather under --node or not, with a server that honours the node
      selector or does not, write the two files, read every pod of the bundle back,
      and sum. */
  method GatherThenReplay(pods: seq<Pod>, ns: string, node: string, honoured: bool)
    returns (live: map<string, nat>, replayed: map<string, nat>)
    requires Snapshot(pods)
    ensures node == "" ==> replayed == live
    ensures node != "" ==> (node in replayed <==> node in live) && (node in live ==> replayed[node] == live[node])
  {
    live := RequestedByNode(pods);
    ServerSelectorDoesNotShow(pods, node);
    var gpu := GatherGPUPods(if honoured then Filter(pods, OnNode(node)) else pods, node);
    var operands := PodsOnNode(Filter(pods, InNamespace(ns)), node);
    var answer := Pods(Loaded(operands), Loaded(gpu), "", (l: map<string, string>) => true);
    var merged := FirstByKey(operands + gpu);
    FilterAll(merged, Wanted("", (l: map<string, string>) => true));
    replayed := RequestedByNode(answer.pods);
    if node == "" {
      forall asked ensures Demand(merged, asked) == Demand(pods, asked) { ReplayAgreesWithLive(pods, ns, node, asked); }
      DemandFixesTheMap(replayed, live, merged, pods);
    } else {
      ReplayAgreesWithLive(pods, ns, node, node);
    }
  }
}
