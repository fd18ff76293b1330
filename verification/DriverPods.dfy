/**
 pkg/mustgather/driverpods.go: the driver pods, each found once however many
 selectors it answers to, and the file each one's report is written to.
 */
module DriverPods {
  import opened Prefixes
  import opened Sorting
  import opened Requested
  import opened BundleReplay

  // ----- finding them -----

  datatype Target = Target(pod: Pod, selector: string)

  const BY_POD_NAME: (Target, Target) -> bool := (a: Target, b: Target) => StringLe(a.pod.name, b.pod.name)

  /** What one selector's list adds: the pods not met under a selector before it. */
  function Add(found: seq<Target>, pods: seq<Pod>, selector: string): seq<Target> {
    if pods == [] then found
    else
      var before, p := Add(found, pods[..|pods| - 1], selector), pods[|pods| - 1];
      if Key(p) in TargetKeys(before) then before else before + [Target(p, selector)]
  }

  function TargetKeys(targets: seq<Target>): set<string> { set t | t in targets :: Key(t.pod) }

  function FoundUnder(lists: seq<(string, seq<Pod>)>, node: string): seq<Target> {
    if lists == [] then []
    else
      var last := lists[|lists| - 1];
      Add(FoundUnder(lists[..|lists| - 1], node), Filter(last.1, OnNode(node)), last.0)
  }

  method FindDriverPods(lists: seq<(string, seq<Pod>)>, node: string) returns (found: seq<Target>)
    ensures found == Sort(FoundUnder(lists, node), BY_POD_NAME)
  {
    found := [];
    var seen: set<string> := {};
    for i := 0 to |lists|
      invariant found == FoundUnder(lists[..i], node) && seen == TargetKeys(found)
    {
      PrefixSnoc(lists, i);
      var pods := PodsOnNode(lists[i].1, node);
      ghost var before := found;
      for j := 0 to |pods|
        invariant found == Add(before, pods[..j], lists[i].0) && seen == TargetKeys(found)
      {
        assert pods[..j + 1][..j] == pods[..j];
        if Key(pods[j]) in seen { continue; }
        seen := seen + {Key(pods[j])};
        found := found + [Target(pods[j], lists[i].0)];
      }
      WholePrefix(pods);
    }
    WholePrefix(lists);
    found := Sort(found, BY_POD_NAME);
  }

  ghost predicate DistinctKeys(targets: seq<Target>) {
    forall i, j :: 0 <= i < j < |targets| ==> Key(targets[i].pod) != Key(targets[j].pod)
  }

  lemma {:induction false} AddFacts(found: seq<Target>, pods: seq<Pod>, selector: string)
    requires DistinctKeys(found)
    ensures DistinctKeys(Add(found, pods, selector))
    ensures TargetKeys(Add(found, pods, selector)) == TargetKeys(found) + Keys(pods)
    ensures forall t :: t in Add(found, pods, selector) ==> t in found || (t.pod in pods && t.selector == selector)
  {
    if pods != [] {
      var init, p := pods[..|pods| - 1], pods[|pods| - 1];
      AddFacts(found, init, selector);
      assert pods == init + [p];
      KeysSnoc(init, p);
      TargetsSnoc(Add(found, init, selector), Target(p, selector));
    }
  }

  lemma TargetsSnoc(targets: seq<Target>, t: Target)
    ensures TargetKeys(targets + [t]) == TargetKeys(targets) + {Key(t.pod)}
    ensures forall u :: u in targets + [t] ==> u in targets || u == t
    ensures DistinctKeys(targets) && Key(t.pod) !in TargetKeys(targets) ==> DistinctKeys(targets + [t])
  {
    assert forall u :: u in targets + [t] <==> u in targets || u == t;
    forall i | 0 <= i < |targets| ensures Key(targets[i].pod) in TargetKeys(targets) { assert targets[i] in targets; }
  }

  /** Every pod some selector lists on the node is found, once, and nothing else is. */
  lemma {:induction false} FoundOnce(lists: seq<(string, seq<Pod>)>, node: string)
    ensures DistinctKeys(FoundUnder(lists, node))
    ensures forall k :: k in TargetKeys(FoundUnder(lists, node)) <==>
      exists i :: 0 <= i < |lists| && k in Keys(Filter(lists[i].1, OnNode(node)))
  {
    if lists != [] {
      var init, last := lists[..|lists| - 1], lists[|lists| - 1];
      FoundOnce(init, node);
      AddFacts(FoundUnder(init, node), Filter(last.1, OnNode(node)), last.0);
      forall k ensures k in TargetKeys(FoundUnder(lists, node)) <==>
        exists i :: 0 <= i < |lists| && k in Keys(Filter(lists[i].1, OnNode(node)))
      {
        if k in TargetKeys(FoundUnder(init, node)) {
          var i :| 0 <= i < |init| && k in Keys(Filter(init[i].1, OnNode(node)));
          assert lists[i] == init[i];
        }
        if i :| 0 <= i < |lists| && k in Keys(Filter(lists[i].1, OnNode(node))) {
          assert i == |init| || lists[i] == init[i];
        }
      }
    }
  }

  /** A pod is found under the first selector that lists it. */
  ghost predicate UnderFirst(t: Target, lists: seq<(string, seq<Pod>)>, node: string) {
    exists i :: 0 <= i < |lists| && t.selector == lists[i].0 && t.pod in lists[i].1 && (node == "" || t.pod.spec.nodeName == node)
      && forall j :: 0 <= j < i ==> Key(t.pod) !in Keys(Filter(lists[j].1, OnNode(node)))
  }

  lemma {:induction false} FoundUnderFirst(lists: seq<(string, seq<Pod>)>, node: string, t: Target)
    requires t in FoundUnder(lists, node)
    ensures UnderFirst(t, lists, node)
  {
    var n := |lists| - 1;
    var init, last := lists[..n], lists[n];
    FoundOnce(init, node);
    var pods := Filter(last.1, OnNode(node));
    AddFacts(FoundUnder(init, node), pods, last.0);
    if t in FoundUnder(init, node) {
      FoundUnderFirst(init, node, t);
      var i :| 0 <= i < |init| && t.selector == init[i].0 && t.pod in init[i].1 && (node == "" || t.pod.spec.nodeName == node)
        && forall j :: 0 <= j < i ==> Key(t.pod) !in Keys(Filter(init[j].1, OnNode(node)));
      assert lists[i] == init[i] && forall j :: 0 <= j < i ==> lists[j] == init[j];
    } else {
      AddedAreNew(FoundUnder(init, node), pods, last.0, t);
      FilterMembers(last.1, OnNode(node));
      assert forall j :: 0 <= j < n ==> lists[j] == init[j];
      assert t.selector == lists[n].0 && t.pod in lists[n].1;
    }
  }

  lemma {:induction false} AddedAreNew(found: seq<Target>, pods: seq<Pod>, selector: string, t: Target)
    requires t in Add(found, pods, selector) && t !in found
    ensures Key(t.pod) !in TargetKeys(found)
  {
    if pods != [] {
      var init, p := pods[..|pods| - 1], pods[|pods| - 1];
      var before := Add(found, init, selector);
      AddKeeps(found, init, selector);
      if t in before { AddedAreNew(found, init, selector, t); }
    }
  }

  lemma {:induction false} AddKeeps(found: seq<Target>, pods: seq<Pod>, selector: string)
    ensures TargetKeys(found) <= TargetKeys(Add(found, pods, selector))
  {
    if pods != [] {
      AddKeeps(found, pods[..|pods| - 1], selector);
      TargetsSnoc(Add(found, pods[..|pods| - 1], selector), Target(pods[|pods| - 1], selector));
    }
  }

  /** They come in order of pod name. */
  lemma FoundInOrder(lists: seq<(string, seq<Pod>)>, node: string, i: nat, j: nat)
    requires i < j < |Sort(FoundUnder(lists, node), BY_POD_NAME)|
    ensures StringLe(Sort(FoundUnder(lists, node), BY_POD_NAME)[i].pod.name, Sort(FoundUnder(lists, node), BY_POD_NAME)[j].pod.name)
  {
    forall a, b: Target ensures BY_POD_NAME(a, b) || BY_POD_NAME(b, a) { StringLeTotal(a.pod.name, b.pod.name); }
    forall a, b, c: Target | BY_POD_NAME(a, b) && BY_POD_NAME(b, c) ensures BY_POD_NAME(a, c) {
      StringLeTransitive(a.pod.name, b.pod.name, c.pod.name);
    }
    SortOrders(FoundUnder(lists, node), BY_POD_NAME);
    assert BY_POD_NAME(Sort(FoundUnder(lists, node), BY_POD_NAME)[i], Sort(FoundUnder(lists, node), BY_POD_NAME)[j]);
  }

  // ----- naming their reports -----

  const REPORT_PREFIX := "nvidia-bug-report_"
  const REPORT_SUFFIX := ".log.gz"
  const USAGE_PREFIX := "gpu_device_usage_"
  const USAGE_SUFFIX := ".log"

  /** A report is named after its node, and after its pod too when the node's name is
      taken. */
  function Short(prefix: string, suffix: string, node: string): string { prefix + node + suffix }

  function Long(prefix: string, suffix: string, node: string, pod: string): string {
    prefix + (node + "_" + pod) + suffix
  }

  predicate DnsName(s: string) { '_' !in s }

  lemma SameMiddle(prefix: string, suffix: string, a: string, b: string)
    requires prefix + a + suffix == prefix + b + suffix
    ensures a == b
  {
    var s := prefix + a + suffix;
    assert |a| == |b|;
    assert s[|prefix|..|prefix| + |a|] == a && s[|prefix|..|prefix| + |b|] == b;
  }

  lemma SplitAtUnderscore(n: string, p: string, n': string, p': string)
    requires DnsName(n) && DnsName(n') && n + "_" + p == n' + "_" + p'
    ensures n == n' && p == p'
  {
    var s := n + "_" + p;
    assert s[|n|] == '_' && s[|n'|] == '_';
    assert forall i :: 0 <= i < |n| ==> s[i] == n[i] && s[i] in n;
    assert forall i :: 0 <= i < |n'| ==> s[i] == n'[i] && s[i] in n';
    assert s[..|n|] == n && s[..|n'|] == n' && s[|n| + 1..] == p && s[|n'| + 1..] == p';
  }

  lemma ShortIsNotLong(prefix: string, suffix: string, node: string, n: string, p: string)
    requires DnsName(node)
    ensures Short(prefix, suffix, node) != Long(prefix, suffix, n, p)
  {
    if prefix + node + suffix == prefix + (n + "_" + p) + suffix { SameMiddle(prefix, suffix, node, n + "_" + p); }
    assert (n + "_" + p)[|n|] == '_';
    assert '_' in n + "_" + p;
  }

  /** Whether an earlier pod runs on the node of the k-th. */
  predicate NodeSeen(pods: seq<(string, string)>, k: nat)
    requires k < |pods|
  {
    exists j :: 0 <= j < k && pods[j].0 == pods[k].0
  }

  function NameFor(pods: seq<(string, string)>, k: nat, prefix: string, suffix: string): string
    requires k < |pods|
  {
    if NodeSeen(pods, k) then Long(prefix, suffix, pods[k].0, pods[k].1) else Short(prefix, suffix, pods[k].0)
  }

  ghost predicate PodsOfOneNamespace(pods: seq<(string, string)>) {
    && (forall k :: 0 <= k < |pods| ==> DnsName(pods[k].0) && DnsName(pods[k].1))
    && (forall i, j :: 0 <= i < j < |pods| ==> pods[i].1 != pods[j].1)
  }

  /** No two of the reports share a file. */
  lemma ReportNamesDiffer(pods: seq<(string, string)>, i: nat, j: nat, prefix: string, suffix: string)
    requires PodsOfOneNamespace(pods) && i < j < |pods|
    ensures NameFor(pods, i, prefix, suffix) != NameFor(pods, j, prefix, suffix)
  {
    ShortIsNotLong(prefix, suffix, pods[i].0, pods[j].0, pods[j].1);
    ShortIsNotLong(prefix, suffix, pods[j].0, pods[i].0, pods[i].1);
    if NameFor(pods, i, prefix, suffix) == NameFor(pods, j, prefix, suffix) {
      if NodeSeen(pods, i) {
        SameMiddle(prefix, suffix, pods[i].0 + "_" + pods[i].1, pods[j].0 + "_" + pods[j].1);
        SplitAtUnderscore(pods[i].0, pods[i].1, pods[j].0, pods[j].1);
      } else {
        SameMiddle(prefix, suffix, pods[i].0, pods[j].0);
      }
    }
  }

  /** The names, spelt out. */
  lemma NamesInWords(pods: seq<(string, string)>, k: nat)
    requires k < |pods|
    ensures NameFor(pods, k, REPORT_PREFIX, REPORT_SUFFIX) ==
      "nvidia-bug-report_" + (if exists j :: 0 <= j < k && pods[j].0 == pods[k].0 then pods[k].0 + "_" + pods[k].1 else pods[k].0) + ".log.gz"
    ensures NameFor(pods, k, USAGE_PREFIX, USAGE_SUFFIX) ==
      "gpu_device_usage_" + (if exists j :: 0 <= j < k && pods[j].0 == pods[k].0 then pods[k].0 + "_" + pods[k].1 else pods[k].0) + ".log"
  {}

  /** Nor does a bug report share its file with a device usage listing. */
  lemma ReportIsNoUsageFile(pods: seq<(string, string)>, i: nat, j: nat)
    requires i < |pods| && j < |pods|
    ensures NameFor(pods, i, REPORT_PREFIX, REPORT_SUFFIX) != NameFor(pods, j, USAGE_PREFIX, USAGE_SUFFIX)
  {
    assert NameFor(pods, i, REPORT_PREFIX, REPORT_SUFFIX)[0] == 'n';
    assert NameFor(pods, j, USAGE_PREFIX, USAGE_SUFFIX)[0] == 'g';
  }

  /** The short name of a node is taken exactly when a pod of it came before. */
  lemma TakenMeansSeen(pods: seq<(string, string)>, k: nat, prefix: string, suffix: string)
    requires PodsOfOneNamespace(pods) && k < |pods|
    ensures NodeSeen(pods, k) <==>
      exists j :: 0 <= j < k && NameFor(pods, j, prefix, suffix) == Short(prefix, suffix, pods[k].0)
  {
    if NodeSeen(pods, k) {
      var j :| 0 <= j < k && pods[j].0 == pods[k].0;
      var first := FirstOfNode(pods, j);
      assert NameFor(pods, first, prefix, suffix) == Short(prefix, suffix, pods[k].0);
    }
    if j :| 0 <= j < k && NameFor(pods, j, prefix, suffix) == Short(prefix, suffix, pods[k].0) {
      ShortIsNotLong(prefix, suffix, pods[k].0, pods[j].0, pods[j].1);
      SameMiddle(prefix, suffix, pods[j].0, pods[k].0);
    }
  }

  lemma {:induction false} FirstOfNode(pods: seq<(string, string)>, j: nat) returns (first: nat)
    requires j < |pods|
    ensures first <= j && pods[first].0 == pods[j].0 && !NodeSeen(pods, first)
  {
    first := j;
    if i :| 0 <= i < j && pods[i].0 == pods[j].0 { first := FirstOfNode(pods, i); }
  }

  /** The pods, each given as its node and its name, are of one namespace, so their
      names differ; a ledger of the names given out keeps their reports apart. */
  method NameReports(pods: seq<(string, string)>, prefix: string, suffix: string) returns (names: seq<string>)
    requires PodsOfOneNamespace(pods)
    ensures |names| == |pods| && Distinct(names)
    ensures forall k :: 0 <= k < |pods| ==> names[k] == NameFor(pods, k, prefix, suffix)
  {
    names := [];
    var taken: set<string> := {};
    for i := 0 to |pods|
      invariant |names| == i && forall k :: 0 <= k < i ==> names[k] == NameFor(pods, k, prefix, suffix)
      invariant taken == set n | n in names
    {
      var name := Short(prefix, suffix, pods[i].0);
      TakenMeansSeen(pods, i, prefix, suffix);
      assert name in taken <==> exists j :: 0 <= j < i && names[j] == name;
      if name in taken { name := Long(prefix, suffix, pods[i].0, pods[i].1); }
      assert name == NameFor(pods, i, prefix, suffix);
      taken := taken + {name};
      names := names + [name];
    }
    forall i, j | 0 <= i < j < |names| ensures names[i] != names[j] { ReportNamesDiffer(pods, i, j, prefix, suffix); }
  }
}
