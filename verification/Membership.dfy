/**
 pkg/source/source.go: which nodes are GPU nodes. It is where the node names the
 topology relies on come from: each once, in order.
 */
module Membership {
  import opened Prefixes
  import opened Sorting

  const RESOURCE_GPU := "nvidia.com/gpu"
  const RESOURCE_GPU_SHARED := "nvidia.com/gpu.shared"
  const RESOURCE_MIG_PREFIX := "nvidia.com/mig-"
  const LABEL_PCI_VENDOR := "feature.node.kubernetes.io/pci-10de.present"
  const LABEL_GPU_PRESENT := "nvidia.com/gpu.present"
  const DRA_DRIVER := "gpu.nvidia.com"

  datatype Node = Node(name: string, labels: map<string, string>, capacity: map<string, int>)

  datatype Slice = Slice(driver: string, nodeName: string)

  predicate HasCapacity(n: Node, resource: string) { resource in n.capacity && n.capacity[resource] > 0 }

  predicate IsGPUNode(n: Node) {
    || HasCapacity(n, RESOURCE_GPU)
    || HasCapacity(n, RESOURCE_GPU_SHARED)
    || exists r :: r in n.capacity && RESOURCE_MIG_PREFIX <= r && n.capacity[r] > 0
  }

  /** A GPU node by capacity has a positive capacity of whole, shared or partitioned GPUs. */
  lemma GPUNodeInWords(n: Node)
    ensures IsGPUNode(n) <==>
      exists r :: r in n.capacity && n.capacity[r] > 0 && (r == "nvidia.com/gpu" || r == "nvidia.com/gpu.shared" || "nvidia.com/mig-" <= r)
  {}

  /** A hint is one of the two discovery labels set to true. */
  lemma HintInWords(n: Node)
    ensures HasHintLabel(n) <==>
      exists l :: l in n.labels && n.labels[l] == "true" && (l == "feature.node.kubernetes.io/pci-10de.present" || l == "nvidia.com/gpu.present")
  {}

  predicate LabelTrue(n: Node, key: string) { key in n.labels && n.labels[key] == "true" }

  predicate HasHintLabel(n: Node) { LabelTrue(n, LABEL_PCI_VENDOR) || LabelTrue(n, LABEL_GPU_PRESENT) }

  function SliceNames(slices: seq<Slice>): set<string> {
    set s | s in slices && s.driver == DRA_DRIVER && s.nodeName != "" :: s.nodeName
  }

  method SliceNodeNames(slices: seq<Slice>) returns (names: set<string>)
    ensures names == SliceNames(slices)
    ensures forall x :: x in names <==> x != "" && exists s :: s in slices && s.driver == "gpu.nvidia.com" && s.nodeName == x
  {
    names := {};
    for i := 0 to |slices|
      invariant names == SliceNames(slices[..i])
    {
      PrefixSnoc(slices, i);
      if slices[i].driver != DRA_DRIVER || slices[i].nodeName == "" { continue; }
      names := names + {slices[i].nodeName};
    }
    WholePrefix(slices);
  }

  function Names(nodes: seq<Node>): seq<string> {
    seq(|nodes|, i requires 0 <= i < |nodes| => nodes[i].name)
  }

  const BY_NAME: (Node, Node) -> bool := (a: Node, b: Node) => StringLe(a.name, b.name)

  /** The node that counts for a name: the first one listed under it. */
  ghost predicate First(nodes: seq<Node>, n: Node) {
    exists i :: 0 <= i < |nodes| && nodes[i] == n && forall j :: 0 <= j < i ==> nodes[j].name != n.name
  }

  /** A GPU node by a slice or by its own capacity. */
  predicate IsMember(n: Node, fromSlices: set<string>) { n.name in fromSlices || IsGPUNode(n) }

  /** The chosen nodes: those counting for their name that satisfy the rule. */
  ghost predicate Chooses(chosen: seq<Node>, nodes: seq<Node>, rule: Node -> bool) {
    && (forall n :: n in chosen <==> First(nodes, n) && rule(n))
    && Distinct(Names(chosen))
  }

  lemma FirstSnoc(nodes: seq<Node>, x: Node)
    ensures forall n :: First(nodes + [x], n) <==> First(nodes, n) || (n == x && x.name !in Names(nodes))
  {
    var all := nodes + [x];
    forall n | First(nodes, n) ensures First(all, n) {
      var i :| 0 <= i < |nodes| && nodes[i] == n && forall j :: 0 <= j < i ==> nodes[j].name != n.name;
      assert all[i] == n && forall j :: 0 <= j < i ==> all[j].name != n.name;
    }
    if x.name !in Names(nodes) {
      forall j | 0 <= j < |nodes| ensures all[j].name != x.name { assert Names(nodes)[j] in Names(nodes); }
      assert all[|nodes|] == x;
    }
    forall n | First(all, n) ensures First(nodes, n) || (n == x && x.name !in Names(nodes)) {
      var i :| 0 <= i < |all| && all[i] == n && forall j :: 0 <= j < i ==> all[j].name != n.name;
      if i < |nodes| {
        assert nodes[i] == n && forall j :: 0 <= j < i ==> nodes[j] == all[j];
      } else {
        forall j | 0 <= j < |nodes| ensures Names(nodes)[j] != x.name { assert all[j] == nodes[j]; }
      }
    }
  }

  lemma FirstIsNamed(nodes: seq<Node>, n: Node)
    requires First(nodes, n)
    ensures n.name in Names(nodes)
  {
    var i :| 0 <= i < |nodes| && nodes[i] == n;
    assert Names(nodes)[i] == n.name;
  }

  lemma ChooseNext(chosen: seq<Node>, nodes: seq<Node>, x: Node, rule: Node -> bool)
    requires Chooses(chosen, nodes, rule)
    ensures x.name in Names(nodes) || !rule(x) ==> Chooses(chosen, nodes + [x], rule)
    ensures x.name !in Names(nodes) && rule(x) ==> Chooses(chosen + [x], nodes + [x], rule)
  {
    FirstSnoc(nodes, x);
    if x.name !in Names(nodes) && rule(x) {
      forall i | 0 <= i < |chosen| ensures chosen[i].name != x.name {
        assert chosen[i] in chosen;
        FirstIsNamed(nodes, chosen[i]);
      }
      assert Names(chosen + [x]) == Names(chosen) + [x.name];
    }
  }

  function GpuRule(fromSlices: set<string>): Node -> bool { (n: Node) => IsMember(n, fromSlices) }

  function HintRule(fromSlices: set<string>): Node -> bool { (n: Node) => !IsMember(n, fromSlices) && HasHintLabel(n) }

  /** Both sets hold, for each name, the first node listed under it; a node is in the
      first set when some membership rule takes it, in the second when only a hint
      label does, and never in both. Each is in order of name. */
  method ClassifyNodes(nodes: seq<Node>, fromSlices: set<string>) returns (gpus: seq<Node>, hinted: seq<Node>)
    ensures Chooses(gpus, nodes, GpuRule(fromSlices)) && Sorted(gpus, BY_NAME)
    ensures Chooses(hinted, nodes, HintRule(fromSlices)) && Sorted(hinted, BY_NAME)
  {
    gpus, hinted := [], [];
    var seen: set<string> := {};
    for i := 0 to |nodes|
      invariant seen == set n | n in Names(nodes[..i])
      invariant Chooses(gpus, nodes[..i], GpuRule(fromSlices))
      invariant Chooses(hinted, nodes[..i], HintRule(fromSlices))
    {
      var n := nodes[i];
      assert nodes[..i + 1] == nodes[..i] + [n];
      assert Names(nodes[..i + 1]) == Names(nodes[..i]) + [n.name];
      ChooseNext(gpus, nodes[..i], n, GpuRule(fromSlices));
      ChooseNext(hinted, nodes[..i], n, HintRule(fromSlices));
      if n.name in seen { continue; }
      seen := seen + {n.name};
      if n.name in fromSlices || IsGPUNode(n) {
        gpus := gpus + [n];
      } else if HasHintLabel(n) {
        hinted := hinted + [n];
      }
    }
    WholePrefix(nodes);
    gpus := SortNodes(gpus, nodes, GpuRule(fromSlices));
    hinted := SortNodes(hinted, nodes, HintRule(fromSlices));
  }

  method SortNodes(chosen: seq<Node>, ghost nodes: seq<Node>, ghost rule: Node -> bool) returns (sorted: seq<Node>)
    requires Chooses(chosen, nodes, rule)
    ensures Chooses(sorted, nodes, rule) && Sorted(sorted, BY_NAME)
  {
    sorted := Sort(chosen, BY_NAME);
    ByNameIsTotalPreorder();
    SortOrders(chosen, BY_NAME);
    SortMembers(chosen, BY_NAME);
    SortedNames(chosen);
  }

  lemma ByNameIsTotalPreorder()
    ensures TotalPreorder(BY_NAME)
  {
    forall a, b: Node ensures BY_NAME(a, b) || BY_NAME(b, a) { StringLeTotal(a.name, b.name); }
    forall a, b, c: Node | BY_NAME(a, b) && BY_NAME(b, c) ensures BY_NAME(a, c) { StringLeTransitive(a.name, b.name, c.name); }
  }

  /** Distinct names stay distinct through the sort. */
  lemma SortedNames(chosen: seq<Node>)
    requires Distinct(Names(chosen))
    ensures Distinct(Names(Sort(chosen, BY_NAME)))
  {
    var sorted := Sort(chosen, BY_NAME);
    assert Distinct(chosen) by {
      forall i, j | 0 <= i < j < |chosen| ensures chosen[i] != chosen[j] { assert Names(chosen)[i] != Names(chosen)[j]; }
    }
    SortDistinct(chosen, BY_NAME);
    SortMembers(chosen, BY_NAME);
    forall i, j | 0 <= i < j < |sorted| ensures Names(sorted)[i] != Names(sorted)[j] {
      assert sorted[i] in sorted && sorted[j] in sorted;
      var k :| 0 <= k < |chosen| && chosen[k] == sorted[i];
      var l :| 0 <= l < |chosen| && chosen[l] == sorted[j];
      assert Names(chosen)[k] == sorted[i].name && Names(chosen)[l] == sorted[j].name;
    }
  }

  /** The two sets in words: of each name the first node listed under it, if a slice names it
      or it has a GPU, or else if it only carries a hint; each set in order of name. */
  lemma SetsInWords(gpus: seq<Node>, hinted: seq<Node>, nodes: seq<Node>, fromSlices: set<string>)
    requires Chooses(gpus, nodes, GpuRule(fromSlices)) && Chooses(hinted, nodes, HintRule(fromSlices))
    requires Sorted(gpus, BY_NAME) && Sorted(hinted, BY_NAME)
    ensures forall n :: n in gpus <==> First(nodes, n) && (n.name in fromSlices || IsGPUNode(n))
    ensures forall n :: n in hinted <==> First(nodes, n) && !(n.name in fromSlices || IsGPUNode(n)) && HasHintLabel(n)
    ensures forall i, j :: 0 <= i < j < |gpus| ==> StringLe(gpus[i].name, gpus[j].name) && gpus[i].name != gpus[j].name
    ensures forall i, j :: 0 <= i < j < |hinted| ==> StringLe(hinted[i].name, hinted[j].name) && hinted[i].name != hinted[j].name
  {
    forall i, j | 0 <= i < j < |gpus| ensures StringLe(gpus[i].name, gpus[j].name) && gpus[i].name != gpus[j].name {
      assert BY_NAME(gpus[i], gpus[j]) && Names(gpus)[i] != Names(gpus)[j];
    }
    forall i, j | 0 <= i < j < |hinted| ensures StringLe(hinted[i].name, hinted[j].name) && hinted[i].name != hinted[j].name {
      assert BY_NAME(hinted[i], hinted[j]) && Names(hinted)[i] != Names(hinted)[j];
    }
  }

  /** No node is in both sets. */
  lemma SetsAreDisjoint(gpus: seq<Node>, hinted: seq<Node>, nodes: seq<Node>, fromSlices: set<string>)
    requires Chooses(gpus, nodes, GpuRule(fromSlices)) && Chooses(hinted, nodes, HintRule(fromSlices))
    ensures forall g, h :: g in gpus && h in hinted ==> g.name != h.name
  {
    forall g, h | g in gpus && h in hinted ensures g.name != h.name {
      var i :| 0 <= i < |nodes| && nodes[i] == g && forall j :: 0 <= j < i ==> nodes[j].name != g.name;
      var k :| 0 <= k < |nodes| && nodes[k] == h && forall j :: 0 <= j < k ==> nodes[j].name != h.name;
      assert i == k || g.name != h.name;
    }
  }
}
