/**
 pkg/topology/group.go, the groups: how the nodes of a cluster divide by one
 label, and what each group has.
 */
module Topology {
  import opened Prefixes
  import opened Sorting

  const LABEL_CLIQUE := "nvidia.com/gpu.clique"
  const LABEL_SUB_DOMAIN := "accelerator.topograph.run/sub-domain"
  const LABEL_DOMAIN := "accelerator.topograph.run/domain"
  const LABEL_TIER_PREFIX := "fabric.topograph.run/tier-"
  const LABEL_HOSTNAME := "kubernetes.io/hostname"

  const LEVEL_NODE := "node"
  const LEVEL_CLUSTER := "cluster"

  datatype GPUNode = GPUNode(
    name: string, labels: map<string, string>, topology: map<string, string>, clique: string,
    allocatable: int, requested: int, requestedKnown: bool, ready: bool, unschedulable: bool)

  datatype Group = Group(
    value: string, nodes: seq<string>, nodeCount: nat, allocatable: int, requested: int,
    free: int, largestFreeNode: int, requestedKnown: bool)

  // ----- reading a node -----

  /** The clique under its label, overridden by any non-empty topology label. */
  function LabelsOfNode(n: GPUNode): map<string, string> {
    (if n.clique != "" then map[LABEL_CLIQUE := n.clique] else map[]) +
    (map l | l in n.topology && n.topology[l] != "" :: n.topology[l])
  }

  function ValueAt(n: GPUNode, key: string): string {
    if key in LabelsOfNode(n) then LabelsOfNode(n)[key]
    else if key in n.labels then n.labels[key]
    else ""
  }

  /** The GPUs a node has left; never negative. */
  function FreeOn(n: GPUNode): (free: int)
    ensures free >= 0
  {
    if !n.requestedKnown || n.allocatable - n.requested < 0 then 0 else n.allocatable - n.requested
  }

  function SumOf(nodes: seq<GPUNode>, f: GPUNode -> int): int {
    if nodes == [] then 0 else SumOf(nodes[..|nodes| - 1], f) + f(nodes[|nodes| - 1])
  }

  const ALLOCATABLE: GPUNode -> int := (n: GPUNode) => n.allocatable
  const REQUESTED: GPUNode -> int := (n: GPUNode) => n.requested
  const FREE: GPUNode -> int := (n: GPUNode) => FreeOn(n)
  const ONE: GPUNode -> int := (n: GPUNode) => 1

  function Names(nodes: seq<GPUNode>): seq<string> {
    seq(|nodes|, i requires 0 <= i < |nodes| => nodes[i].name)
  }

  predicate AllKnown(nodes: seq<GPUNode>) { forall n :: n in nodes ==> n.requestedKnown }

  /** m is the most free GPUs on any one of the nodes, zero over none. */
  ghost predicate IsLargestFree(m: int, nodes: seq<GPUNode>) {
    && (forall n :: n in nodes ==> FreeOn(n) <= m)
    && (if nodes == [] then m == 0 else exists n :: n in nodes && FreeOn(n) == m)
  }

  /** What a group of these nodes says: the totals of its nodes, unless the pods of
      some node were never listed, and then nothing about what is used. */
  ghost predicate Summarises(g: Group, value: string, nodes: seq<GPUNode>) {
    && g.value == value
    && g.nodes == Sort(Names(nodes), StrLe)
    && g.nodeCount == |nodes|
    && g.allocatable == SumOf(nodes, ALLOCATABLE)
    && g.requestedKnown == AllKnown(nodes)
    && (g.requestedKnown ==>
          && g.requested == SumOf(nodes, REQUESTED)
          && g.free == SumOf(nodes, FREE)
          && IsLargestFree(g.largestFreeNode, nodes))
    && (!g.requestedKnown ==> g.requested == g.free == g.largestFreeNode == 0)
  }

  /** The summary leaves nothing open. */
  lemma SummaryUnique(g: Group, h: Group, value: string, nodes: seq<GPUNode>)
    requires Summarises(g, value, nodes) && Summarises(h, value, nodes)
    ensures g == h
  {}

  lemma SumOfSnoc(nodes: seq<GPUNode>, n: GPUNode, f: GPUNode -> int)
    ensures SumOf(nodes + [n], f) == SumOf(nodes, f) + f(n)
  {
    assert (nodes + [n])[..|nodes|] == nodes;
  }

  ghost predicate KnownTotals(nodes: seq<GPUNode>, requested: int, free: int, largest: int) {
    requested == SumOf(nodes, REQUESTED) && free == SumOf(nodes, FREE) && IsLargestFree(largest, nodes)
  }

  lemma TotalsSnoc(nodes: seq<GPUNode>, n: GPUNode, requested: int, free: int, largest: int)
    requires KnownTotals(nodes, requested, free, largest)
    ensures KnownTotals(nodes + [n], requested + n.requested, free + FreeOn(n), if FreeOn(n) > largest then FreeOn(n) else largest)
  {
    SumOfSnoc(nodes, n, REQUESTED);
    SumOfSnoc(nodes, n, FREE);
    LargestSnoc(largest, nodes, n);
  }

  lemma KnownSnoc(nodes: seq<GPUNode>, n: GPUNode)
    ensures AllKnown(nodes + [n]) == (AllKnown(nodes) && n.requestedKnown)
    ensures Names(nodes + [n]) == Names(nodes) + [n.name]
  {
    assert forall m :: m in nodes + [n] <==> m in nodes || m == n;
  }

  method GroupOf(value: string, nodes: seq<GPUNode>) returns (g: Group)
    ensures Summarises(g, value, nodes)
  {
    var names: seq<string> := [];
    var allocatable, requested, free, largest, known := 0, 0, 0, 0, true;
    for i := 0 to |nodes|
      invariant names == Names(nodes[..i])
      invariant allocatable == SumOf(nodes[..i], ALLOCATABLE)
      invariant known == AllKnown(nodes[..i])
      invariant known ==> KnownTotals(nodes[..i], requested, free, largest)
    {
      var n := nodes[i];
      PrefixSnoc(nodes, i);
      SumOfSnoc(nodes[..i], n, ALLOCATABLE);
      KnownSnoc(nodes[..i], n);
      if known && n.requestedKnown { TotalsSnoc(nodes[..i], n, requested, free, largest); }
      names := names + [n.name];
      allocatable := allocatable + n.allocatable;
      if !n.requestedKnown {
        known := false;
        continue;
      }
      requested := requested + n.requested;
      var mine := FreeOn(n);
      free := free + mine;
      if mine > largest { largest := mine; }
    }
    WholePrefix(nodes);
    if !known { requested, free, largest := 0, 0, 0; }
    g := Group(value, Sort(names, StrLe), |nodes|, allocatable, requested, free, largest, known);
  }

  lemma LargestSnoc(m: int, nodes: seq<GPUNode>, n: GPUNode)
    requires IsLargestFree(m, nodes)
    ensures IsLargestFree(if FreeOn(n) > m then FreeOn(n) else m, nodes + [n])
  {
    var after := nodes + [n];
    assert n in after;
    if FreeOn(n) <= m {
      if nodes == [] {
        assert FreeOn(n) == m;
      } else {
        var k :| k in nodes && FreeOn(k) == m;
        assert k in after;
      }
    }
  }

  // ----- what a group says, in the fields of its nodes -----

  lemma GroupOfNone(g: Group, value: string)
    requires Summarises(g, value, [])
    ensures g.nodeCount == 0 && g.nodes == [] && g.requestedKnown
    ensures g.allocatable == g.requested == g.free == g.largestFreeNode == 0
  {}

  /** A node more adds its GPUs, and, as long as every node is known, what its pods asked
      for and what that leaves of it, which is never less than nothing. */
  lemma GroupOfOneMore(g: Group, h: Group, value: string, nodes: seq<GPUNode>, n: GPUNode)
    requires Summarises(g, value, nodes) && Summarises(h, value, nodes + [n])
    ensures h.nodeCount == g.nodeCount + 1 && h.allocatable == g.allocatable + n.allocatable
    ensures h.requestedKnown == (g.requestedKnown && n.requestedKnown)
    ensures h.requestedKnown ==>
      var left := if n.allocatable > n.requested then n.allocatable - n.requested else 0;
      && h.requested == g.requested + n.requested && h.free == g.free + left
      && h.largestFreeNode == if left > g.largestFreeNode then left else g.largestFreeNode
    ensures !h.requestedKnown ==> h.requested == h.free == h.largestFreeNode == 0
  {
    SumOfSnoc(nodes, n, ALLOCATABLE);
    KnownSnoc(nodes, n);
    if h.requestedKnown {
      TotalsSnoc(nodes, n, g.requested, g.free, g.largestFreeNode);
      LargestIsOne(h.largestFreeNode, if FreeOn(n) > g.largestFreeNode then FreeOn(n) else g.largestFreeNode, nodes + [n]);
    }
  }

  lemma LargestIsOne(a: int, b: int, nodes: seq<GPUNode>)
    requires IsLargestFree(a, nodes) && IsLargestFree(b, nodes)
    ensures a == b
  {}

  lemma {:induction false} FreeCoversTheRest(nodes: seq<GPUNode>)
    requires AllKnown(nodes)
    ensures SumOf(nodes, FREE) + SumOf(nodes, REQUESTED) >= SumOf(nodes, ALLOCATABLE)
    ensures SumOf(nodes, FREE) + SumOf(nodes, REQUESTED) == SumOf(nodes, ALLOCATABLE) <==>
      forall n :: n in nodes ==> n.requested <= n.allocatable
  {
    if nodes != [] {
      FreeCoversTheRest(nodes[..|nodes| - 1]);
      assert nodes == nodes[..|nodes| - 1] + [nodes[|nodes| - 1]];
    }
  }

  /** What a known group has free is what is not asked for, exactly when no node of it is
      overdrawn; an overdrawn one takes nothing from its neighbours. */
  lemma FreeIsTheRest(g: Group, value: string, nodes: seq<GPUNode>)
    requires Summarises(g, value, nodes) && g.requestedKnown
    ensures g.free + g.requested == g.allocatable <==> forall n :: n in nodes ==> n.requested <= n.allocatable
    ensures g.free + g.requested >= g.allocatable
  {
    FreeCoversTheRest(nodes);
  }

  /** The value of a label on a node: its topology field first, then the clique for the
      clique label, then its own labels; an empty topology field counts for nothing. */
  lemma ValueInFields(n: GPUNode, key: string)
    ensures ValueAt(n, key) ==
      if key in n.topology && n.topology[key] != "" then n.topology[key]
      else if key == "nvidia.com/gpu.clique" && n.clique != "" then n.clique
      else if key in n.labels then n.labels[key]
      else ""
  {}

  // ----- dividing by a label -----

  function Carries(key: string, value: string): GPUNode -> bool { (n: GPUNode) => ValueAt(n, key) == value }

  function HasLabel(key: string): GPUNode -> bool { (n: GPUNode) => ValueAt(n, key) != "" }

  /** The nodes with one value of the label, in their order. */
  function Class(nodes: seq<GPUNode>, key: string, value: string): seq<GPUNode> {
    Filter(nodes, Carries(key, value))
  }

  function ValuesInUse(nodes: seq<GPUNode>, key: string): set<string> {
    set n | n in nodes && ValueAt(n, key) != "" :: ValueAt(n, key)
  }

  function Values(groups: seq<Group>): seq<string> {
    seq(|groups|, i requires 0 <= i < |groups| => groups[i].value)
  }

  /** The groups are the classes of the nodes by their value of the label, one per
      value in use, in increasing order of value. */
  ghost predicate DividesBy(groups: seq<Group>, nodes: seq<GPUNode>, key: string) {
    Lists(Values(groups), ValuesInUse(nodes, key)) && EachSummarises(groups, nodes, key)
  }

  ghost predicate EachSummarises(groups: seq<Group>, nodes: seq<GPUNode>, key: string) {
    forall i :: 0 <= i < |groups| ==> Summarises(groups[i], groups[i].value, Class(nodes, key, groups[i].value))
  }

  lemma {:induction false} ClassEmpty(nodes: seq<GPUNode>, key: string, v: string)
    requires v != "" && v !in ValuesInUse(nodes, key)
    ensures Class(nodes, key, v) == []
  {
    if nodes != [] {
      var init := nodes[..|nodes| - 1];
      assert forall n :: n in init ==> n in nodes;
      ClassEmpty(init, key, v);
      assert nodes[|nodes| - 1] in nodes;
    }
  }

  ghost predicate Collects(byValue: map<string, seq<GPUNode>>, nodes: seq<GPUNode>, key: string) {
    && byValue.Keys == ValuesInUse(nodes, key)
    && forall v :: v in byValue ==> byValue[v] == Class(nodes, key, v)
  }

  lemma ValuesSnocNode(nodes: seq<GPUNode>, n: GPUNode, key: string)
    ensures ValuesInUse(nodes + [n], key) == ValuesInUse(nodes, key) + if ValueAt(n, key) != "" then {ValueAt(n, key)} else {}
  {
    assert forall m :: m in nodes + [n] <==> m in nodes || m == n;
  }

  function Under(byValue: map<string, seq<GPUNode>>, value: string, n: GPUNode): map<string, seq<GPUNode>> {
    byValue[value := (if value in byValue then byValue[value] else []) + [n]]
  }

  lemma CollectNext(byValue: map<string, seq<GPUNode>>, nodes: seq<GPUNode>, n: GPUNode, key: string)
    requires Collects(byValue, nodes, key)
    ensures Collects(if ValueAt(n, key) == "" then byValue else Under(byValue, ValueAt(n, key), n), nodes + [n], key)
  {
    var value := ValueAt(n, key);
    ValuesSnocNode(nodes, n, key);
    var next := if value == "" then byValue else Under(byValue, value, n);
    forall v | v in next ensures next[v] == Class(nodes + [n], key, v) { CollectedClass(byValue, nodes, n, key, v); }
  }

  lemma CollectedClass(byValue: map<string, seq<GPUNode>>, nodes: seq<GPUNode>, n: GPUNode, key: string, v: string)
    requires Collects(byValue, nodes, key) && v != "" && (v in byValue || v == ValueAt(n, key))
    ensures (if v == ValueAt(n, key) then Under(byValue, v, n)[v] else byValue[v]) == Class(nodes + [n], key, v)
  {
    FilterSnoc(nodes, n, Carries(key, v));
    if v !in byValue { ClassEmpty(nodes, key, v); }
  }

  method CollectByValue(nodes: seq<GPUNode>, key: string) returns (byValue: map<string, seq<GPUNode>>)
    ensures Collects(byValue, nodes, key)
  {
    byValue := map[];
    for i := 0 to |nodes|
      invariant Collects(byValue, nodes[..i], key)
    {
      var value := ValueAt(nodes[i], key);
      PrefixSnoc(nodes, i);
      CollectNext(byValue, nodes[..i], nodes[i], key);
      if value == "" { continue; }
      byValue := Under(byValue, value, nodes[i]);
    }
    WholePrefix(nodes);
  }

  lemma GroupsSnoc(groups: seq<Group>, g: Group, nodes: seq<GPUNode>, key: string)
    requires Summarises(g, g.value, Class(nodes, key, g.value))
    requires EachSummarises(groups, nodes, key)
    ensures Values(groups + [g]) == Values(groups) + [g.value]
    ensures EachSummarises(groups + [g], nodes, key)
  {}

  method GroupsAt(nodes: seq<GPUNode>, key: string) returns (groups: seq<Group>)
    ensures DividesBy(groups, nodes, key)
  {
    var byValue := CollectByValue(nodes, key);
    var values := SortedKeys(byValue.Keys);
    groups := [];
    for i := 0 to |values|
      invariant Values(groups) == values[..i]
      invariant EachSummarises(groups, nodes, key)
    {
      assert values[i] in values;
      var g := GroupOf(values[i], byValue[values[i]]);
      GroupsSnoc(groups, g, nodes, key);
      PrefixSnoc(values, i);
      groups := groups + [g];
    }
    WholePrefix(values);
  }

  /** The division is one sequence: iterating the map in another order is invisible. */
  lemma DivisionUnique(a: seq<Group>, b: seq<Group>, nodes: seq<GPUNode>, key: string)
    requires DividesBy(a, nodes, key) && DividesBy(b, nodes, key)
    ensures a == b
  {
    ListingUnique(Values(a), Values(b), ValuesInUse(nodes, key));
    assert |a| == |Values(a)| && |b| == |Values(b)|;
    forall i | 0 <= i < |a| ensures a[i] == b[i] {
      assert Values(a)[i] == Values(b)[i];
      SummaryUnique(a[i], b[i], a[i].value, Class(nodes, key, a[i].value));
    }
  }

  /** Every node that carries the label is named by exactly one group, the one with
      its value, and no group names a node that does not. */
  lemma DivisionIsPartition(groups: seq<Group>, nodes: seq<GPUNode>, key: string)
    requires DividesBy(groups, nodes, key)
    requires Distinct(Names(nodes))
    ensures forall i, n :: 0 <= i < |groups| && n in nodes ==>
      (n.name in groups[i].nodes <==> ValueAt(n, key) == groups[i].value)
  {
    forall i, n | 0 <= i < |groups| && n in nodes
      ensures n.name in groups[i].nodes <==> ValueAt(n, key) == groups[i].value
    {
      var mine := Class(nodes, key, groups[i].value);
      FilterMembers(nodes, Carries(key, groups[i].value));
      SortMembers(Names(mine), StrLe);
      if n in mine {
        var k :| 0 <= k < |mine| && mine[k] == n;
        assert Names(mine)[k] == n.name;
      }
      if n.name in Names(mine) {
        var k :| 0 <= k < |mine| && mine[k].name == n.name;
        assert mine[k] in mine;
        SameNameSameNode(nodes, mine[k], n);
      }
    }
  }

  lemma SameNameSameNode(nodes: seq<GPUNode>, a: GPUNode, b: GPUNode)
    requires Distinct(Names(nodes)) && a in nodes && b in nodes && a.name == b.name
    ensures a == b
  {
    var i :| 0 <= i < |nodes| && nodes[i] == a;
    var j :| 0 <= j < |nodes| && nodes[j] == b;
    assert Names(nodes)[i] == Names(nodes)[j];
  }

  // ----- nothing is lost or counted twice across the groups -----

  function SumOverValues(values: seq<string>, nodes: seq<GPUNode>, key: string, f: GPUNode -> int): int {
    if values == [] then 0
    else SumOverValues(values[1..], nodes, key, f) + SumOf(Class(nodes, key, values[0]), f)
  }

  lemma {:induction false} OneNodeMore(values: seq<string>, nodes: seq<GPUNode>, n: GPUNode, key: string, f: GPUNode -> int)
    requires Distinct(values)
    ensures SumOverValues(values, nodes + [n], key, f) ==
      SumOverValues(values, nodes, key, f) + if ValueAt(n, key) in values then f(n) else 0
  {
    if values != [] {
      OneNodeMore(values[1..], nodes, n, key, f);
      OneNodeInClass(nodes, n, key, values[0], f);
      HeadOrTail(values, ValueAt(n, key));
    }
  }

  lemma OneNodeInClass(nodes: seq<GPUNode>, n: GPUNode, key: string, v: string, f: GPUNode -> int)
    ensures SumOf(Class(nodes + [n], key, v), f) == SumOf(Class(nodes, key, v), f) + if ValueAt(n, key) == v then f(n) else 0
  {
    FilterSnoc(nodes, n, Carries(key, v));
    SumOfSnoc(Class(nodes, key, v), n, f);
  }

  lemma HeadOrTail(values: seq<string>, v: string)
    requires values != [] && Distinct(values)
    ensures Distinct(values[1..]) && (v in values <==> v == values[0] || v in values[1..]) && values[0] !in values[1..]
  {
    assert values == [values[0]] + values[1..];
  }

  lemma {:induction false} NoNodes(values: seq<string>, key: string, f: GPUNode -> int)
    ensures SumOverValues(values, [], key, f) == 0
  {
    if values != [] { NoNodes(values[1..], key, f); }
  }

  lemma {:induction false} SumsSplitByValue(values: seq<string>, nodes: seq<GPUNode>, key: string, f: GPUNode -> int)
    requires Distinct(values) && "" !in values
    requires forall n :: n in nodes && ValueAt(n, key) != "" ==> ValueAt(n, key) in values
    ensures SumOverValues(values, nodes, key, f) == SumOf(Filter(nodes, HasLabel(key)), f)
  {
    if nodes == [] {
      NoNodes(values, key, f);
    } else {
      var init, last := nodes[..|nodes| - 1], nodes[|nodes| - 1];
      assert nodes == init + [last];
      SumsSplitByValue(values, init, key, f);
      OneNodeMore(values, init, last, key, f);
      FilterSnoc(init, last, HasLabel(key));
      SumOfSnoc(Filter(init, HasLabel(key)), last, f);
    }
  }

  function TotalNodes(groups: seq<Group>): int {
    if groups == [] then 0 else TotalNodes(groups[1..]) + groups[0].nodeCount
  }

  function TotalAllocatable(groups: seq<Group>): int {
    if groups == [] then 0 else TotalAllocatable(groups[1..]) + groups[0].allocatable
  }

  lemma {:induction false} CountIsSum(nodes: seq<GPUNode>)
    ensures SumOf(nodes, ONE) == |nodes|
  {
    if nodes != [] { CountIsSum(nodes[..|nodes| - 1]); }
  }

  lemma {:induction false} TotalsAreSums(groups: seq<Group>, nodes: seq<GPUNode>, key: string)
    requires EachSummarises(groups, nodes, key)
    ensures TotalNodes(groups) == SumOverValues(Values(groups), nodes, key, ONE)
    ensures TotalAllocatable(groups) == SumOverValues(Values(groups), nodes, key, ALLOCATABLE)
  {
    if groups != [] {
      TailSummarises(groups, nodes, key);
      TotalsAreSums(groups[1..], nodes, key);
      CountIsSum(Class(nodes, key, groups[0].value));
    }
  }

  lemma TailSummarises(groups: seq<Group>, nodes: seq<GPUNode>, key: string)
    requires groups != [] && EachSummarises(groups, nodes, key)
    ensures EachSummarises(groups[1..], nodes, key)
    ensures Values(groups)[1..] == Values(groups[1..]) && Values(groups)[0] == groups[0].value
    ensures groups[0].nodeCount == |Class(nodes, key, groups[0].value)|
    ensures groups[0].allocatable == SumOf(Class(nodes, key, groups[0].value), ALLOCATABLE)
  {
    assert Summarises(groups[0], groups[0].value, Class(nodes, key, groups[0].value));
  }

  /** Node counts and allocatable GPUs are conserved by the division. */
  lemma DivisionConserves(groups: seq<Group>, nodes: seq<GPUNode>, key: string)
    requires DividesBy(groups, nodes, key)
    ensures TotalNodes(groups) == |Filter(nodes, HasLabel(key))|
    ensures TotalAllocatable(groups) == SumOf(Filter(nodes, HasLabel(key)), ALLOCATABLE)
  {
    var values := Values(groups);
    assert forall n :: n in nodes && ValueAt(n, key) != "" ==> ValueAt(n, key) in ValuesInUse(nodes, key);
    TotalsAreSums(groups, nodes, key);
    SumsSplitByValue(values, nodes, key, ONE);
    SumsSplitByValue(values, nodes, key, ALLOCATABLE);
    CountIsSum(Filter(nodes, HasLabel(key)));
  }

  // ----- the two implicit levels -----

  const GROUP_LE: (Group, Group) -> bool := (a: Group, b: Group) => StringLe(a.value, b.value)

  /** One group per node, named after it, in order of name. */
  ghost predicate OnePerNode(groups: seq<Group>, nodes: seq<GPUNode>) {
    && Values(groups) == Sort(Names(nodes), StrLe)
    && forall g :: g in groups ==> exists n :: n in nodes && Summarises(g, n.name, [n])
  }

  lemma ValuesSnoc(s: seq<Group>, g: Group)
    ensures Values(s + [g]) == Values(s) + [g.value]
  {}

  lemma {:induction false} InsertByValue(s: seq<Group>, x: Group)
    ensures Values(Insert(s, x, GROUP_LE)) == Insert(Values(s), x.value, StrLe)
  {
    if s == [] || GROUP_LE(s[|s| - 1], x) {
    } else {
      InsertByValue(s[..|s| - 1], x);
      assert s == s[..|s| - 1] + [s[|s| - 1]];
      ValuesSnoc(s[..|s| - 1], s[|s| - 1]);
      ValuesSnoc(Insert(s[..|s| - 1], x, GROUP_LE), s[|s| - 1]);
    }
  }

  lemma {:induction false} SortByValue(s: seq<Group>)
    ensures Values(Sort(s, GROUP_LE)) == Sort(Values(s), StrLe)
  {
    if s != [] {
      SortByValue(s[..|s| - 1]);
      InsertByValue(Sort(s[..|s| - 1], GROUP_LE), s[|s| - 1]);
      assert s == s[..|s| - 1] + [s[|s| - 1]];
      ValuesSnoc(s[..|s| - 1], s[|s| - 1]);
      SortSnoc(Values(s[..|s| - 1]), s[|s| - 1].value, StrLe);
    }
  }

  method GroupsPerNode(nodes: seq<GPUNode>) returns (groups: seq<Group>)
    ensures OnePerNode(groups, nodes)
  {
    var unsorted: seq<Group> := [];
    for i := 0 to |nodes|
      invariant Values(unsorted) == Names(nodes[..i])
      invariant forall g :: g in unsorted ==> exists n :: n in nodes && Summarises(g, n.name, [n])
    {
      var g := GroupOf(nodes[i].name, [nodes[i]]);
      assert nodes[i] in nodes;
      ValuesSnoc(unsorted, g);
      PrefixSnoc(nodes, i);
      assert Names(nodes[..i + 1]) == Names(nodes[..i]) + [nodes[i].name];
      unsorted := unsorted + [g];
    }
    WholePrefix(nodes);
    groups := Sort(unsorted, GROUP_LE);
    SortByValue(unsorted);
    SortMembers(unsorted, GROUP_LE);
  }

  ghost predicate WholeCluster(groups: seq<Group>, nodes: seq<GPUNode>) {
    if nodes == [] then groups == [] else |groups| == 1 && Summarises(groups[0], LEVEL_CLUSTER, nodes)
  }

  method GroupsWholeCluster(nodes: seq<GPUNode>) returns (groups: seq<Group>)
    ensures WholeCluster(groups, nodes)
  {
    if |nodes| == 0 { return []; }
    var g := GroupOf(LEVEL_CLUSTER, nodes);
    return [g];
  }
}
