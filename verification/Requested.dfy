/**
 pkg/inventory/requested.go: how many GPUs a pod asks the scheduler for, and what
 the pods already hold on each node.
 */
module Requested {
  import opened Prefixes
  import opened Wrappers
  import opened Sorting
  import Membership

  datatype RestartPolicy = Unset | Always | Never | OnFailure

  /** `tenant` stands for everything of a container no reader of a bundle reads:
      its command, arguments, environment and mounts. */
  datatype Container = Container(
    name: string, requests: map<string, nat>, limits: map<string, nat>, restart: RestartPolicy, tenant: string)

  datatype PodSpec = PodSpec(
    nodeName: string, overhead: map<string, nat>, containers: seq<Container>, initContainers: seq<Container>,
    tenant: string)

  datatype Phase = Pending | Running | Succeeded | Failed | Unknown

  datatype Pod = Pod(
    namespace: string, name: string, uid: string, labels: map<string, string>, owners: seq<string>,
    annotations: map<string, string>, spec: PodSpec, phase: Phase)

  function Max(a: nat, b: nat): nat { if a < b then b else a }

  function ContainerRequest(c: Container, resource: string): nat {
    if resource in c.requests then c.requests[resource]
    else if resource in c.limits then c.limits[resource]
    else 0
  }

  function GpuRequest(c: Container): nat {
    ContainerRequest(c, Membership.RESOURCE_GPU) + ContainerRequest(c, Membership.RESOURCE_GPU_SHARED)
  }

  predicate IsRestartable(c: Container) { c.restart == Always }

  function Total(cs: seq<Container>): nat {
    if cs == [] then 0 else Total(cs[..|cs| - 1]) + GpuRequest(cs[|cs| - 1])
  }

  function Sidecars(inits: seq<Container>): seq<Container> {
    if inits == [] then []
    else if IsRestartable(inits[|inits| - 1]) then Sidecars(inits[..|inits| - 1]) + [inits[|inits| - 1]]
    else Sidecars(inits[..|inits| - 1])
  }

  /** The most any init container needs together with the sidecars before it. */
  function InitPeak(inits: seq<Container>): nat {
    if inits == [] then 0
    else Max(InitPeak(inits[..|inits| - 1]), Total(Sidecars(inits[..|inits| - 1])) + GpuRequest(inits[|inits| - 1]))
  }

  function Request(spec: PodSpec): nat {
    Max(InitPeak(spec.initContainers), Total(spec.containers) + Total(Sidecars(spec.initContainers)))
  }

  lemma TotalSnoc(cs: seq<Container>, c: Container)
    ensures Total(cs + [c]) == Total(cs) + GpuRequest(c)
  {
    assert (cs + [c])[..|cs|] == cs;
  }

  lemma {:induction false} TotalAppends(a: seq<Container>, b: seq<Container>)
    ensures Total(a + b) == Total(a) + Total(b)
  {
    if b == [] {
      assert a + b == a;
    } else {
      assert a + b == (a + b[..|b| - 1]) + [b[|b| - 1]];
      TotalSnoc(a + b[..|b| - 1], b[|b| - 1]);
      TotalAppends(a, b[..|b| - 1]);
    }
  }

  method PodSpecGPURequest(maybe: Option<PodSpec>) returns (request: nat)
    ensures request == if maybe.None? then 0 else Request(maybe.value)
  {
    if maybe.None? { return 0; }
    var spec := maybe.value;
    var containers := 0;
    for i := 0 to |spec.containers|
      invariant containers == Total(spec.containers[..i])
    {
      PrefixSnoc(spec.containers, i);
      TotalSnoc(spec.containers[..i], spec.containers[i]);
      containers := containers + GpuRequest(spec.containers[i]);
    }
    var inits := spec.initContainers;
    var sidecars, peak := 0, 0;
    for i := 0 to |inits|
      invariant sidecars == Total(Sidecars(inits[..i]))
      invariant peak == InitPeak(inits[..i])
    {
      PrefixSnoc(inits, i);
      var c := inits[i];
      if IsRestartable(c) {
        TotalSnoc(Sidecars(inits[..i]), c);
        sidecars := sidecars + GpuRequest(c);
        peak := Max(peak, sidecars);
        continue;
      }
      peak := Max(peak, sidecars + GpuRequest(c));
    }
    WholePrefix(spec.containers);
    WholePrefix(inits);
    request := Max(peak, containers + sidecars);
  }

  // ----- the start-up of a pod, and the peak of it -----

  /** next is the init container to start or, while `plain`, the one running;
      alive holds every container running now, in start order. */
  datatype Startup = Startup(next: nat, plain: bool, main: nat, alive: seq<Container>)

  const FRESH := Startup(0, false, 0, [])

  /** Init containers start in order, a plain one ends before the next starts, a
      sidecar stays; the containers start once every init container is through. */
  ghost predicate Step(spec: PodSpec, s: Startup, t: Startup) {
    var inits := spec.initContainers;
    || (!s.plain && s.next < |inits| && s.main == 0
        && t == if inits[s.next].restart == Always
                then Startup(s.next + 1, false, 0, s.alive + [inits[s.next]])
                else Startup(s.next, true, 0, s.alive + [inits[s.next]]))
    || (s.plain && s.alive != [] && t == Startup(s.next + 1, false, 0, s.alive[..|s.alive| - 1]))
    || (!s.plain && s.next == |inits| && s.main < |spec.containers|
        && t == Startup(s.next, false, s.main + 1, s.alive + [spec.containers[s.main]]))
  }

  ghost predicate IsRun(spec: PodSpec, run: seq<Startup>) {
    && run != [] && run[0] == FRESH
    && forall i :: 0 < i < |run| ==> Step(spec, run[i - 1], run[i])
  }

  ghost predicate Consistent(spec: PodSpec, s: Startup) {
    var inits := spec.initContainers;
    && s.next <= |inits| && s.main <= |spec.containers|
    && (s.plain ==> s.next < |inits| && !IsRestartable(inits[s.next]))
    && (s.main > 0 ==> s.next == |inits| && !s.plain)
    && s.alive == Sidecars(inits[..s.next]) + (if s.plain then [inits[s.next]] else []) + spec.containers[..s.main]
  }

  lemma StepKeepsConsistent(spec: PodSpec, s: Startup, t: Startup)
    requires Consistent(spec, s) && Step(spec, s, t)
    ensures Consistent(spec, t)
  {
    var inits := spec.initContainers;
    if s.next < |inits| { assert inits[..s.next + 1][..s.next] == inits[..s.next]; }
    if s.main < |spec.containers| && t.main == s.main + 1 {
      assert spec.containers[..s.main + 1] == spec.containers[..s.main] + [spec.containers[s.main]];
    }
    if s.plain {
      assert s.alive == Sidecars(inits[..s.next]) + [inits[s.next]];
    }
  }

  lemma {:induction false} RunsAreConsistent(spec: PodSpec, run: seq<Startup>, i: nat)
    requires IsRun(spec, run) && i < |run|
    ensures Consistent(spec, run[i])
  {
    if i > 0 {
      RunsAreConsistent(spec, run, i - 1);
      StepKeepsConsistent(spec, run[i - 1], run[i]);
    }
  }

  lemma {:induction false} InitPeakBounds(inits: seq<Container>, k: nat)
    requires k < |inits|
    ensures Total(Sidecars(inits[..k])) + GpuRequest(inits[k]) <= InitPeak(inits)
  {
    if k < |inits| - 1 {
      InitPeakBounds(inits[..|inits| - 1], k);
      assert inits[..|inits| - 1][..k] == inits[..k];
    }
  }

  lemma {:induction false} SidecarsGrow(inits: seq<Container>, k: nat)
    requires k <= |inits|
    ensures Total(Sidecars(inits[..k])) <= Total(Sidecars(inits))
  {
    if k < |inits| {
      var init := inits[..|inits| - 1];
      SidecarsGrow(init, k);
      assert init[..k] == inits[..k];
      TotalSnoc(Sidecars(init), inits[|inits| - 1]);
    } else {
      assert inits[..k] == inits;
    }
  }

  lemma {:induction false} TotalGrows(cs: seq<Container>, k: nat)
    requires k <= |cs|
    ensures Total(cs[..k]) <= Total(cs)
  {
    assert cs == cs[..k] + cs[k..];
    TotalAppends(cs[..k], cs[k..]);
  }

  lemma HeldIsBounded(spec: PodSpec, s: Startup)
    requires Consistent(spec, s)
    ensures Total(s.alive) <= Request(spec)
  {
    var inits := spec.initContainers;
    TotalAppends(Sidecars(inits[..s.next]) + (if s.plain then [inits[s.next]] else []), spec.containers[..s.main]);
    if s.plain {
      TotalSnoc(Sidecars(inits[..s.next]), inits[s.next]);
      InitPeakBounds(inits, s.next);
    } else {
      assert Sidecars(inits[..s.next]) + [] == Sidecars(inits[..s.next]);
      SidecarsGrow(inits, s.next);
      TotalGrows(spec.containers, s.main);
    }
  }

  lemma ExtendRun(spec: PodSpec, run: seq<Startup>, t: Startup)
    requires IsRun(spec, run) && Step(spec, run[|run| - 1], t)
    ensures IsRun(spec, run + [t])
  {}

  /** A run that is done with the first k init containers and nothing else. */
  lemma {:induction false} RunThroughInits(spec: PodSpec, k: nat) returns (run: seq<Startup>)
    requires k <= |spec.initContainers|
    ensures IsRun(spec, run)
    ensures run[|run| - 1] == Startup(k, false, 0, Sidecars(spec.initContainers[..k]))
  {
    var inits := spec.initContainers;
    if k == 0 { return [FRESH]; }
    run := RunThroughInits(spec, k - 1);
    assert inits[..k][..k - 1] == inits[..k - 1];
    var before := Sidecars(inits[..k - 1]);
    if IsRestartable(inits[k - 1]) {
      run := run + [Startup(k, false, 0, before + [inits[k - 1]])];
    } else {
      run := run + [Startup(k - 1, true, 0, before + [inits[k - 1]])];
      assert (before + [inits[k - 1]])[..|before|] == before;
      run := run + [Startup(k, false, 0, before)];
    }
  }

  lemma {:induction false} RunIntoMain(spec: PodSpec, m: nat) returns (run: seq<Startup>)
    requires m <= |spec.containers|
    ensures IsRun(spec, run)
    ensures run[|run| - 1] ==
      Startup(|spec.initContainers|, false, m, Sidecars(spec.initContainers) + spec.containers[..m])
  {
    var inits := spec.initContainers;
    if m == 0 {
      run := RunThroughInits(spec, |inits|);
      WholePrefix(inits);
      assert Sidecars(inits) + spec.containers[..0] == Sidecars(inits);
    } else {
      run := RunIntoMain(spec, m - 1);
      var t := Startup(|inits|, false, m, Sidecars(inits) + spec.containers[..m - 1] + [spec.containers[m - 1]]);
      assert spec.containers[..m] == spec.containers[..m - 1] + [spec.containers[m - 1]];
      assert t.alive == Sidecars(inits) + spec.containers[..m];
      run := run + [t];
    }
  }

  lemma {:induction false} InitPeakAttained(inits: seq<Container>) returns (k: nat)
    requires inits != []
    ensures k < |inits| && Total(Sidecars(inits[..k])) + GpuRequest(inits[k]) == InitPeak(inits)
  {
    var n := |inits| - 1;
    k := n;
    if n > 0 && InitPeak(inits[..n]) == InitPeak(inits) {
      k := InitPeakAttained(inits[..n]);
      assert inits[..n][..k] == inits[..k];
    }
  }

  lemma PeakIsReached(spec: PodSpec) returns (run: seq<Startup>)
    ensures IsRun(spec, run) && Total(run[|run| - 1].alive) == Request(spec)
  {
    var inits := spec.initContainers;
    if inits != [] && InitPeak(inits) == Request(spec) {
      var k := InitPeakAttained(inits);
      run := RunThroughInits(spec, k);
      var before := Sidecars(inits[..k]);
      TotalSnoc(before, inits[k]);
      var t := if IsRestartable(inits[k]) then Startup(k + 1, false, 0, before + [inits[k]])
               else Startup(k, true, 0, before + [inits[k]]);
      ExtendRun(spec, run, t);
      run := run + [t];
    } else {
      run := RunIntoMain(spec, |spec.containers|);
      WholePrefix(spec.containers);
      TotalAppends(Sidecars(inits), spec.containers);
    }
  }

  /** The request is the exact peak over every reachable state of the start-up. */
  lemma RequestIsThePeak(spec: PodSpec)
    ensures forall run: seq<Startup> :: IsRun(spec, run) ==> Total(run[|run| - 1].alive) <= Request(spec)
    ensures exists run: seq<Startup> :: IsRun(spec, run) && Total(run[|run| - 1].alive) == Request(spec)
  {
    forall run: seq<Startup> | IsRun(spec, run) ensures Total(run[|run| - 1].alive) <= Request(spec) {
      RunsAreConsistent(spec, run, |run| - 1);
      HeldIsBounded(spec, run[|run| - 1]);
    }
    var run := PeakIsReached(spec);
  }

  // ----- what the pods hold on each node -----

  function Holds(p: Pod, node: string): nat {
    if node != "" && p.spec.nodeName == node && p.phase != Succeeded && p.phase != Failed then Request(p.spec) else 0
  }

  function Demand(pods: seq<Pod>, node: string): nat {
    if pods == [] then 0 else Demand(pods[..|pods| - 1], node) + Holds(pods[|pods| - 1], node)
  }

  /** The map is the demand of each node with any. */
  ghost predicate TellsDemand(out: map<string, nat>, pods: seq<Pod>) {
    forall node :: (node in out <==> Demand(pods, node) > 0) && (node in out ==> out[node] == Demand(pods, node))
  }

  method RequestedByNode(pods: seq<Pod>) returns (out: map<string, nat>)
    ensures TellsDemand(out, pods)
    ensures forall node :: node in out <==> node != "" && SumOfRequests(Filter(pods, StillOn(node))) > 0
    ensures forall node :: node in out ==> out[node] == SumOfRequests(Filter(pods, StillOn(node)))
  {
    out := map[];
    for i := 0 to |pods|
      invariant TellsDemand(out, pods[..i])
    {
      var pod := pods[i];
      PrefixSnoc(pods, i);
      if pod.spec.nodeName == "" { continue; }
      if pod.phase == Succeeded || pod.phase == Failed { continue; }
      var n := PodSpecGPURequest(Some(pod.spec));
      if n == 0 { continue; }
      var before := if pod.spec.nodeName in out then out[pod.spec.nodeName] else 0;
      out := out[pod.spec.nodeName := before + n];
    }
    WholePrefix(pods);
    forall node
      ensures node in out <==> node != "" && SumOfRequests(Filter(pods, StillOn(node))) > 0
      ensures node in out ==> out[node] == SumOfRequests(Filter(pods, StillOn(node)))
    {
      MapInFields(out, pods, node);
    }
  }

  // ----- which pods count, and for what -----

  /** The requests of the pods, one after the other. */
  function SumOfRequests(pods: seq<Pod>): nat {
    if pods == [] then 0 else SumOfRequests(pods[..|pods| - 1]) + Request(pods[|pods| - 1].spec)
  }

  /** Bound to the node, and neither Succeeded nor Failed. */
  function StillOn(node: string): Pod -> bool {
    (p: Pod) => p.spec.nodeName == node && (p.phase == Pending || p.phase == Running || p.phase == Unknown)
  }

  lemma {:induction false} DemandIsSum(pods: seq<Pod>, node: string)
    requires node != ""
    ensures Demand(pods, node) == SumOfRequests(Filter(pods, StillOn(node)))
  {
    if pods != [] {
      var init, last := pods[..|pods| - 1], pods[|pods| - 1];
      DemandIsSum(init, node);
      var before := Filter(init, StillOn(node));
      assert (before + [last])[..|before|] == before;
    }
  }

  lemma {:induction false} NoDemandOfUnbound(pods: seq<Pod>)
    ensures Demand(pods, "") == 0
  {
    if pods != [] { NoDemandOfUnbound(pods[..|pods| - 1]); }
  }

  /** A node is in the map exactly when the pods bound to it that are Pending, Running or
      Unknown ask for GPUs, with the sum of what they ask for. */
  lemma MapInFields(out: map<string, nat>, pods: seq<Pod>, node: string)
    requires TellsDemand(out, pods)
    ensures node in out <==> node != "" && SumOfRequests(Filter(pods, StillOn(node))) > 0
    ensures node in out ==> out[node] == SumOfRequests(Filter(pods, StillOn(node)))
  {
    if node == "" { NoDemandOfUnbound(pods); } else { DemandIsSum(pods, node); }
  }

  function Unfinished(): Pod -> bool {
    (p: Pod) => p.spec.nodeName != "" && p.phase != Succeeded && p.phase != Failed
  }

  lemma {:induction false} UnfinishedDemand(pods: seq<Pod>, node: string)
    ensures Demand(Filter(pods, Unfinished()), node) == Demand(pods, node)
  {
    if pods != [] {
      var init, last := pods[..|pods| - 1], pods[|pods| - 1];
      UnfinishedDemand(init, node);
      if Unfinished()(last) { DemandSnoc(Filter(init, Unfinished()), last, node); }
    }
  }

  /** Pods that have finished or were never bound do not show in the map. */
  lemma FinishedDoNotCount(m: map<string, nat>, n: map<string, nat>, pods: seq<Pod>)
    requires TellsDemand(m, pods) && TellsDemand(n, Filter(pods, Unfinished()))
    ensures m == n
  {
    forall node ensures Demand(pods, node) == Demand(Filter(pods, Unfinished()), node) { UnfinishedDemand(pods, node); }
    DemandFixesTheMap(m, n, pods, Filter(pods, Unfinished()));
  }

  /** Of unfinished pods all bound to one node, every one counts, and to that node alone. */
  lemma {:induction false} UnfinishedAllCount(pods: seq<Pod>, node: string, other: string)
    requires node != ""
    requires forall p :: p in pods ==> p.spec.nodeName == node && (p.phase == Pending || p.phase == Running || p.phase == Unknown)
    ensures Demand(pods, other) == if other == node then SumOfRequests(pods) else 0
  {
    if pods != [] {
      assert forall p :: p in pods[..|pods| - 1] ==> p in pods;
      assert pods[|pods| - 1] in pods;
      UnfinishedAllCount(pods[..|pods| - 1], node, other);
    }
  }

  lemma OneNodesMap(m: map<string, nat>, pods: seq<Pod>, node: string)
    requires TellsDemand(m, pods) && node != ""
    requires forall p :: p in pods ==> p.spec.nodeName == node && (p.phase == Pending || p.phase == Running || p.phase == Unknown)
    ensures m == if SumOfRequests(pods) > 0 then map[node := SumOfRequests(pods)] else map[]
  {
    forall other ensures Demand(pods, other) == if other == node then SumOfRequests(pods) else 0 { UnfinishedAllCount(pods, node, other); }
    assert forall other :: other in m ==> other == node;
  }

  /** A pod of one container asks for what the container requests of both names a GPU goes
      under, a limit standing in for a request that is not there, and for nothing else. */
  lemma OneContainer(spec: PodSpec, c: Container)
    requires spec.containers == [c] && spec.initContainers == []
    ensures Request(spec) ==
      (if "nvidia.com/gpu" in c.requests then c.requests["nvidia.com/gpu"]
       else if "nvidia.com/gpu" in c.limits then c.limits["nvidia.com/gpu"] else 0) +
      (if "nvidia.com/gpu.shared" in c.requests then c.requests["nvidia.com/gpu.shared"]
       else if "nvidia.com/gpu.shared" in c.limits then c.limits["nvidia.com/gpu.shared"] else 0)
  {
    assert [c][..0] == [];
  }

  lemma DemandSnoc(pods: seq<Pod>, p: Pod, node: string)
    ensures Demand(pods + [p], node) == Demand(pods, node) + Holds(p, node)
  {
    assert (pods + [p])[..|pods|] == pods;
  }

  lemma {:induction false} DemandAppends(a: seq<Pod>, b: seq<Pod>, node: string)
    ensures Demand(a + b, node) == Demand(a, node) + Demand(b, node)
  {
    if b == [] {
      assert a + b == a;
    } else {
      assert a + b == (a + b[..|b| - 1]) + [b[|b| - 1]];
      DemandSnoc(a + b[..|b| - 1], b[|b| - 1], node);
      DemandAppends(a, b[..|b| - 1], node);
    }
  }

  /** The demand of every node fixes the map. */
  lemma DemandFixesTheMap(m: map<string, nat>, n: map<string, nat>, a: seq<Pod>, b: seq<Pod>)
    requires TellsDemand(m, a) && TellsDemand(n, b)
    requires forall node :: Demand(a, node) == Demand(b, node)
    ensures m == n
  {
    forall node ensures node in m <==> node in n { assert Demand(a, node) == Demand(b, node); }
    forall node | node in m ensures m[node] == n[node] { assert Demand(a, node) == Demand(b, node); }
  }
}
