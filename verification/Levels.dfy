/**
 pkg/topology/group.go, the levels: which divisions of the cluster a report
 carries, narrowest first, and the report built from them.
 */
module Levels {
  import opened Prefixes
  import opened Sorting
  import opened Strconv
  import opened Topology

  datatype Source = Node | Clique | SubDomain | Domain | Tier | Kueue | Cluster

  datatype LevelKey = LevelKey(name: string, tag: string, source: Source, tier: int)

  datatype Level = Level(name: string, tag: string, source: Source, groups: seq<Group>)

  datatype KueueTopology = KueueTopology(name: string, levels: seq<string>)

  const NODE_KEY := LevelKey(LEVEL_NODE, LABEL_HOSTNAME, Node, 0)
  const CLUSTER_KEY := LevelKey(LEVEL_CLUSTER, "", Cluster, 0)
  const CLIQUE_KEY := LevelKey("clique", LABEL_CLIQUE, Clique, 0)
  const SUB_DOMAIN_KEY := LevelKey("accelerator-sub-domain", LABEL_SUB_DOMAIN, SubDomain, 0)
  const DOMAIN_KEY := LevelKey("accelerator-domain", LABEL_DOMAIN, Domain, 0)

  // ----- the labels in use -----

  function LabelsInUse(nodes: seq<GPUNode>): set<string> {
    set n, l | n in nodes && l in LabelsOfNode(n) :: l
  }

  method CollectLabels(nodes: seq<GPUNode>) returns (present: set<string>)
    ensures present == LabelsInUse(nodes)
  {
    present := {};
    for i := 0 to |nodes|
      invariant present == LabelsInUse(nodes[..i])
    {
      PrefixSnoc(nodes, i);
      present := present + LabelsOfNode(nodes[i]).Keys;
    }
    WholePrefix(nodes);
  }

  method AnyNodeHas(nodes: seq<GPUNode>, key: string) returns (found: bool)
    ensures found <==> ValuesInUse(nodes, key) != {}
  {
    for i := 0 to |nodes|
      invariant forall k :: 0 <= k < i ==> ValueAt(nodes[k], key) == ""
    {
      if ValueAt(nodes[i], key) != "" {
        assert ValueAt(nodes[i], key) in ValuesInUse(nodes, key);
        return true;
      }
    }
    return false;
  }

  // ----- the fabric tiers -----

  predicate IsTierLabel(l: string) { LABEL_TIER_PREFIX <= l }

  /** A suffix that is no number sorts at the far end. */
  function TierKey(l: string): LevelKey
    requires IsTierLabel(l)
  {
    var number := Atoi(l[|LABEL_TIER_PREFIX|..]);
    LevelKey(l[|"fabric.topograph.run/"|..], l, Tier, if number.Num? then number.value else MAX_INT)
  }

  const TIER_LE: (LevelKey, LevelKey) -> bool :=
    (a: LevelKey, b: LevelKey) => a.tier < b.tier || (a.tier == b.tier && StringLe(a.tag, b.tag))

  lemma TierLeIsTotalPreorder()
    ensures TotalPreorder(TIER_LE)
  {
    forall a, b: LevelKey ensures TIER_LE(a, b) || TIER_LE(b, a) { StringLeTotal(a.tag, b.tag); }
    forall a, b, c: LevelKey | TIER_LE(a, b) && TIER_LE(b, c) ensures TIER_LE(a, c) {
      if a.tier == b.tier == c.tier { StringLeTransitive(a.tag, b.tag, c.tag); }
    }
  }

  /** One level per tier label in use, by number and then by label. */
  ghost predicate ListsTiers(tiers: seq<LevelKey>, present: set<string>) {
    && Distinct(tiers)
    && Sorted(tiers, TIER_LE)
    && (forall k :: k in tiers ==> IsTierLabel(k.tag) && k.tag in present && k == TierKey(k.tag))
    && (forall l :: l in present && IsTierLabel(l) ==> TierKey(l) in tiers)
  }

  method TierLevels(present: set<string>) returns (tiers: seq<LevelKey>)
    ensures ListsTiers(tiers, present)
  {
    tiers := [];
    var left := present;
    while left != {}
      invariant left <= present
      invariant Distinct(tiers)
      invariant forall k :: k in tiers ==> IsTierLabel(k.tag) && k.tag in present && k.tag !in left && k == TierKey(k.tag)
      invariant forall l :: l in present && l !in left && IsTierLabel(l) ==> TierKey(l) in tiers
      decreases left
    {
      var l :| l in left;
      left := left - {l};
      if !IsTierLabel(l) { continue; }
      tiers := tiers + [TierKey(l)];
    }
    ghost var unsorted := tiers;
    tiers := Sort(tiers, TIER_LE);
    TierLeIsTotalPreorder();
    SortOrders(unsorted, TIER_LE);
    SortDistinct(unsorted, TIER_LE);
    SortMembers(unsorted, TIER_LE);
  }

  /** The tier levels are one sequence, whatever order the labels came in. */
  lemma TiersUnique(a: seq<LevelKey>, b: seq<LevelKey>, present: set<string>)
    requires ListsTiers(a, present) && ListsTiers(b, present)
    ensures a == b
  {
    forall k ensures k in a <==> k in b {
      if k in a { assert TierKey(k.tag) in b; }
      if k in b { assert TierKey(k.tag) in a; }
    }
    SameMembersSameMultiset(a, b);
    forall j, k | j in a && k in a && TIER_LE(j, k) && TIER_LE(k, j) ensures j == k {
      StringLeAntisymmetric(j.tag, k.tag);
    }
    OrderedUnique(a, b, TIER_LE);
  }

  // ----- the Kueue levels -----

  function Reverse(s: seq<string>): seq<string> {
    if s == [] then [] else [s[|s| - 1]] + Reverse(s[..|s| - 1])
  }

  /** Every declared level, each topology from its last to its first. */
  function Walk(topologies: seq<KueueTopology>): seq<string> {
    if topologies == [] then []
    else Walk(topologies[..|topologies| - 1]) + Reverse(topologies[|topologies| - 1].levels)
  }

  /** The levels taken on a walk: not read above, not taken before, and in use. */
  function Taken(walk: seq<string>, above: set<string>, nodes: seq<GPUNode>): seq<string> {
    if walk == [] then []
    else
      var init, last := walk[..|walk| - 1], walk[|walk| - 1];
      if last in above || last in Taken(init, above, nodes) || ValuesInUse(nodes, last) == {}
      then Taken(init, above, nodes)
      else Taken(init, above, nodes) + [last]
  }

  function KueueKey(l: string): LevelKey { LevelKey(l, l, Kueue, 0) }

  function KueueKeys(taken: seq<string>): seq<LevelKey> {
    seq(|taken|, i requires 0 <= i < |taken| => KueueKey(taken[i]))
  }

  function Tags(keys: seq<LevelKey>): seq<string> {
    seq(|keys|, i requires 0 <= i < |keys| => keys[i].tag)
  }

  function TagSet(keys: seq<LevelKey>): set<string> { set k | k in keys :: k.tag }

  lemma TakenSnoc(walk: seq<string>, l: string, above: set<string>, nodes: seq<GPUNode>)
    ensures Taken(walk + [l], above, nodes) ==
      if l in above || l in Taken(walk, above, nodes) || ValuesInUse(nodes, l) == {}
      then Taken(walk, above, nodes) else Taken(walk, above, nodes) + [l]
  {
    assert (walk + [l])[..|walk|] == walk;
  }

  /** What has been read: the levels above and what was taken. */
  function Seen(above: set<string>, taken: seq<string>): set<string> { above + set l | l in taken }

  lemma SeenSnoc(above: set<string>, taken: seq<string>, l: string)
    ensures Seen(above, taken + [l]) == Seen(above, taken) + {l}
  {
    assert forall m :: m in taken + [l] <==> m in taken || m == l;
  }

  lemma WalkBack(walk: seq<string>, levels: seq<string>, i: nat)
    requires i < |levels|
    ensures walk + [levels[i]] + Reverse(levels[..i]) == walk + Reverse(levels[..i + 1])
  {
    PrefixSnoc(levels, i);
    assert levels[..i + 1][..i] == levels[..i];
  }

  /** One topology, walked backwards behind what was taken before it. */
  method WalkTopology(levels: seq<string>, nodes: seq<GPUNode>, taken0: seq<string>, seen0: set<string>,
                      ghost before: seq<string>, ghost above: set<string>)
    returns (taken: seq<string>, seen: set<string>)
    requires taken0 == Taken(before, above, nodes)
    requires seen0 == Seen(above, taken0)
    ensures taken == Taken(before + Reverse(levels), above, nodes)
    ensures seen == Seen(above, taken)
  {
    taken, seen := taken0, seen0;
    ghost var walk := before;
    var i := |levels|;
    WholePrefix(levels);
    assert before + Reverse(levels) == walk + Reverse(levels[..i]);
    while i > 0
      invariant 0 <= i <= |levels|
      invariant walk + Reverse(levels[..i]) == before + Reverse(levels)
      invariant taken == Taken(walk, above, nodes)
      invariant seen == Seen(above, taken)
    {
      i := i - 1;
      var l := levels[i];
      TakenSnoc(walk, l, above, nodes);
      WalkBack(walk, levels, i);
      SeenSnoc(above, taken, l);
      walk := walk + [l];
      if l in seen { continue; }
      var found := AnyNodeHas(nodes, l);
      if !found { continue; }
      seen := seen + {l};
      taken := taken + [l];
    }
    assert walk + Reverse(levels[..0]) == walk;
  }

  // ----- all levels -----

  function FixedKeys(present: set<string>): seq<LevelKey> {
    (if LABEL_CLIQUE in present then [CLIQUE_KEY] else []) +
    (if LABEL_SUB_DOMAIN in present then [SUB_DOMAIN_KEY] else []) +
    (if LABEL_DOMAIN in present then [DOMAIN_KEY] else [])
  }

  /** The levels, narrowest first: the node, the NVLink groupings, the tiers, the
      Kueue levels, the cluster. */
  ghost predicate LevelsInOrder(keys: seq<LevelKey>, tiers: seq<LevelKey>, nodes: seq<GPUNode>, topologies: seq<KueueTopology>) {
    var named := [NODE_KEY] + FixedKeys(LabelsInUse(nodes)) + tiers;
    && ListsTiers(tiers, LabelsInUse(nodes))
    && keys == named + KueueKeys(Taken(Walk(topologies), TagSet(named), nodes)) + [CLUSTER_KEY]
  }

  ghost predicate AreLevels(keys: seq<LevelKey>, nodes: seq<GPUNode>, topologies: seq<KueueTopology>) {
    exists tiers :: LevelsInOrder(keys, tiers, nodes, topologies)
  }

  method LevelsOf(nodes: seq<GPUNode>, topologies: seq<KueueTopology>) returns (keys: seq<LevelKey>)
    ensures AreLevels(keys, nodes, topologies)
  {
    var present := CollectLabels(nodes);
    var found := TierLevels(present);
    keys := [NODE_KEY] + FixedKeys(present) + found;
    ghost var named := keys;
    var seen: set<string> := set k | k in keys :: k.tag;
    ghost var above := seen;
    var taken: seq<string> := [];
    for i := 0 to |topologies|
      invariant taken == Taken(Walk(topologies[..i]), above, nodes)
      invariant seen == Seen(above, taken)
    {
      PrefixSnoc(topologies, i);
      taken, seen := WalkTopology(topologies[i].levels, nodes, taken, seen, Walk(topologies[..i]), above);
    }
    WholePrefix(topologies);
    keys := keys + KueueKeys(taken) + [CLUSTER_KEY];
    assert LevelsInOrder(keys, found, nodes, topologies);
  }

  // ----- what the order guarantees -----

  /** The levels are one sequence, whatever order maps were read in. */
  lemma LevelsUnique(a: seq<LevelKey>, b: seq<LevelKey>, nodes: seq<GPUNode>, topologies: seq<KueueTopology>)
    requires AreLevels(a, nodes, topologies) && AreLevels(b, nodes, topologies)
    ensures a == b
  {
    var t :| LevelsInOrder(a, t, nodes, topologies);
    var u :| LevelsInOrder(b, u, nodes, topologies);
    TiersUnique(t, u, LabelsInUse(nodes));
  }

  lemma {:induction false} TakenFacts(walk: seq<string>, above: set<string>, nodes: seq<GPUNode>)
    ensures Distinct(Taken(walk, above, nodes))
    ensures forall l :: l in Taken(walk, above, nodes) <==> l in walk && l !in above && ValuesInUse(nodes, l) != {}
  {
    if walk != [] {
      TakenFacts(walk[..|walk| - 1], above, nodes);
      assert walk == walk[..|walk| - 1] + [walk[|walk| - 1]];
    }
  }

  lemma TierLabelsAreTheirOwn(l: string)
    requires IsTierLabel(l)
    ensures l != LABEL_HOSTNAME && l != LABEL_CLIQUE && l != LABEL_SUB_DOMAIN && l != LABEL_DOMAIN && l != ""
  {
    assert l[0] == LABEL_TIER_PREFIX[0];
  }

  lemma FixedTags(present: set<string>)
    ensures var tags := Tags([NODE_KEY] + FixedKeys(present));
      Distinct(tags) && forall t :: t in tags ==> t in {LABEL_HOSTNAME, LABEL_CLIQUE, LABEL_SUB_DOMAIN, LABEL_DOMAIN}
  {}

  lemma TierTags(tiers: seq<LevelKey>, present: set<string>)
    requires ListsTiers(tiers, present)
    ensures Distinct(Tags(tiers)) && forall t :: t in Tags(tiers) ==> IsTierLabel(t)
  {
    forall i, j | 0 <= i < j < |tiers| ensures Tags(tiers)[i] != Tags(tiers)[j] {
      assert tiers[i] in tiers && tiers[j] in tiers;
    }
    forall t | t in Tags(tiers) ensures IsTierLabel(t) {
      var i :| 0 <= i < |tiers| && Tags(tiers)[i] == t;
      assert tiers[i] in tiers;
    }
  }

  lemma NamedTagsDistinct(tiers: seq<LevelKey>, present: set<string>)
    requires ListsTiers(tiers, present)
    ensures Distinct(Tags([NODE_KEY] + FixedKeys(present) + tiers))
    ensures "" !in Tags([NODE_KEY] + FixedKeys(present) + tiers)
  {
    FixedTags(present);
    TierTags(tiers, present);
    forall t | IsTierLabel(t) ensures t !in {LABEL_HOSTNAME, LABEL_CLIQUE, LABEL_SUB_DOMAIN, LABEL_DOMAIN, ""} {
      TierLabelsAreTheirOwn(t);
    }
    TagsAppend([NODE_KEY] + FixedKeys(present), tiers);
    DistinctAppend(Tags([NODE_KEY] + FixedKeys(present)), Tags(tiers));
  }

  /** A parsed Topology names no empty label. */
  ghost predicate NoEmptyLabels(topologies: seq<KueueTopology>) { "" !in Walk(topologies) }

  /** No label is read at two levels; the first level is the node and the last the
      cluster. */
  lemma NoLabelTwice(keys: seq<LevelKey>, nodes: seq<GPUNode>, topologies: seq<KueueTopology>)
    requires AreLevels(keys, nodes, topologies) && NoEmptyLabels(topologies)
    ensures keys[0] == NODE_KEY && keys[|keys| - 1] == CLUSTER_KEY && |keys| >= 2
    ensures Distinct(Tags(keys))
  {
    var tiers :| LevelsInOrder(keys, tiers, nodes, topologies);
    var named := [NODE_KEY] + FixedKeys(LabelsInUse(nodes)) + tiers;
    var taken := Taken(Walk(topologies), TagSet(named), nodes);
    NamedTagsDistinct(tiers, LabelsInUse(nodes));
    TakenFacts(Walk(topologies), TagSet(named), nodes);
    TagsInSet(named);
    DistinctAppend(Tags(named), taken);
    DistinctAppend(Tags(named) + taken, [""]);
    TagsOfKeys(named, taken);
  }

  lemma TagsInSet(keys: seq<LevelKey>)
    ensures forall x :: x in Tags(keys) ==> x in TagSet(keys)
  {
    forall x | x in Tags(keys) ensures x in TagSet(keys) {
      var i :| 0 <= i < |keys| && Tags(keys)[i] == x;
      assert keys[i] in keys;
    }
  }

  lemma TagsOfKeys(named: seq<LevelKey>, taken: seq<string>)
    ensures Tags(named + KueueKeys(taken) + [CLUSTER_KEY]) == Tags(named) + taken + [""]
  {
    TagsAppend(named, KueueKeys(taken));
    TagsAppend(named + KueueKeys(taken), [CLUSTER_KEY]);
    assert Tags(KueueKeys(taken)) == taken && Tags([CLUSTER_KEY]) == [""];
  }

  lemma TagsAppend(a: seq<LevelKey>, b: seq<LevelKey>)
    ensures Tags(a + b) == Tags(a) + Tags(b)
  {}

  lemma DistinctAppend<T>(a: seq<T>, b: seq<T>)
    requires Distinct(a) && Distinct(b) && forall x :: x in a ==> x !in b
    ensures Distinct(a + b)
  {
    forall i, j | 0 <= i < j < |a + b| ensures (a + b)[i] != (a + b)[j] {
      if i < |a| <= j { assert a[i] in a && b[j - |a|] in b; }
    }
  }

  /** Every explicit level divides at least one node. */
  lemma ExplicitLevelsHaveNodes(keys: seq<LevelKey>, nodes: seq<GPUNode>, topologies: seq<KueueTopology>)
    requires AreLevels(keys, nodes, topologies)
    ensures forall k :: k in keys && k.source != Node && k.source != Cluster ==> ValuesInUse(nodes, k.tag) != {}
  {
    var tiers :| LevelsInOrder(keys, tiers, nodes, topologies);
    var named := [NODE_KEY] + FixedKeys(LabelsInUse(nodes)) + tiers;
    var taken := Taken(Walk(topologies), TagSet(named), nodes);
    TakenFacts(Walk(topologies), TagSet(named), nodes);
    forall k | k in keys && k.source != Node && k.source != Cluster ensures ValuesInUse(nodes, k.tag) != {} {
      if k in KueueKeys(taken) {
        var i :| 0 <= i < |taken| && KueueKeys(taken)[i] == k;
        assert taken[i] in taken;
      } else {
        NamedAreInUse(tiers, LabelsInUse(nodes), k);
        UsedLabelHasValue(nodes, k.tag);
      }
    }
  }

  lemma NamedAreInUse(tiers: seq<LevelKey>, present: set<string>, k: LevelKey)
    requires ListsTiers(tiers, present)
    requires k in [NODE_KEY] + FixedKeys(present) + tiers && k.source != Node
    ensures k.tag in present
  {}

  lemma UsedLabelHasValue(nodes: seq<GPUNode>, l: string)
    requires l in LabelsInUse(nodes)
    ensures ValuesInUse(nodes, l) != {}
  {
    var n :| n in nodes && l in LabelsOfNode(n);
    assert ValueAt(n, l) in ValuesInUse(nodes, l);
  }

  // ----- the order of the levels, spelt out -----

  /** Where a kind of level stands: the node, the three NVLink groupings from the tightest,
      the fabric, Kueue, the cluster. */
  function Place(s: Source): nat {
    match s
    case Node => 0
    case Clique => 1
    case SubDomain => 2
    case Domain => 3
    case Tier => 4
    case Kueue => 5
    case Cluster => 6
  }

  ghost predicate InPlace(keys: seq<LevelKey>, low: nat, high: nat) {
    && (forall i :: 0 <= i < |keys| ==> low <= Place(keys[i].source) <= high)
    && (forall i, j :: 0 <= i < j < |keys| ==> Place(keys[i].source) <= Place(keys[j].source))
    && (forall i, j :: 0 <= i < j < |keys| && keys[i].source == keys[j].source ==> keys[i].source == Tier || keys[i].source == Kueue)
  }

  lemma InPlaceAppends(a: seq<LevelKey>, b: seq<LevelKey>, low: nat, middle: nat, high: nat)
    requires InPlace(a, low, middle) && InPlace(b, middle + 1, high) && low <= middle < high
    ensures InPlace(a + b, low, high)
  {
    forall i, j | 0 <= i < j < |a + b| ensures Place((a + b)[i].source) <= Place((a + b)[j].source) {}
  }

  lemma FixedInPlace(present: set<string>)
    ensures InPlace([NODE_KEY], 0, 0) && InPlace(FixedKeys(present), 1, 3) && InPlace([CLUSTER_KEY], 6, 6)
  {
    var a := if LABEL_CLIQUE in present then [CLIQUE_KEY] else [];
    var b := if LABEL_SUB_DOMAIN in present then [SUB_DOMAIN_KEY] else [];
    var c := if LABEL_DOMAIN in present then [DOMAIN_KEY] else [];
    OneInPlace(LABEL_CLIQUE in present, CLIQUE_KEY, 1);
    OneInPlace(LABEL_SUB_DOMAIN in present, SUB_DOMAIN_KEY, 2);
    OneInPlace(LABEL_DOMAIN in present, DOMAIN_KEY, 3);
    ThreeInPlace(a, b, c);
    OneInPlace(true, NODE_KEY, 0);
    OneInPlace(true, CLUSTER_KEY, 6);
  }

  lemma OneInPlace(there: bool, k: LevelKey, at: nat)
    requires Place(k.source) == at
    ensures InPlace(if there then [k] else [], at, at)
  {}

  lemma ThreeInPlace(a: seq<LevelKey>, b: seq<LevelKey>, c: seq<LevelKey>)
    requires InPlace(a, 1, 1) && InPlace(b, 2, 2) && InPlace(c, 3, 3)
    ensures InPlace(a + b + c, 1, 3)
  {
    InPlaceAppends(a, b, 1, 1, 2);
    InPlaceAppends(a + b, c, 1, 2, 3);
  }

  lemma KindsInPlace(tiers: seq<LevelKey>, present: set<string>, taken: seq<string>)
    requires ListsTiers(tiers, present)
    ensures InPlace(tiers, 4, 4) && InPlace(KueueKeys(taken), 5, 5)
  {
    forall i | 0 <= i < |tiers| ensures tiers[i].source == Tier { assert tiers[i] in tiers; }
  }

  /** Narrowest first: a kind of level that stands ahead has all its levels ahead, and of
      every kind but tiers and Kueue levels there is at most one. */
  lemma LevelsInPlace(keys: seq<LevelKey>, nodes: seq<GPUNode>, topologies: seq<KueueTopology>)
    requires AreLevels(keys, nodes, topologies)
    ensures forall i, j :: 0 <= i < j < |keys| ==> Place(keys[i].source) <= Place(keys[j].source)
    ensures forall i, j :: 0 <= i < j < |keys| && keys[i].source == keys[j].source ==> keys[i].source == Tier || keys[i].source == Kueue
  {
    var tiers :| LevelsInOrder(keys, tiers, nodes, topologies);
    var present := LabelsInUse(nodes);
    var taken := Taken(Walk(topologies), TagSet([NODE_KEY] + FixedKeys(present) + tiers), nodes);
    FixedInPlace(present);
    KindsInPlace(tiers, present, taken);
    AllInPlace([NODE_KEY], FixedKeys(present), tiers, KueueKeys(taken), [CLUSTER_KEY]);
  }

  lemma AllInPlace(node: seq<LevelKey>, fixed: seq<LevelKey>, tiers: seq<LevelKey>, kueue: seq<LevelKey>, cluster: seq<LevelKey>)
    requires InPlace(node, 0, 0) && InPlace(fixed, 1, 3) && InPlace(tiers, 4, 4) && InPlace(kueue, 5, 5) && InPlace(cluster, 6, 6)
    ensures InPlace(node + fixed + tiers + kueue + cluster, 0, 6)
  {
    InPlaceAppends(node, fixed, 0, 0, 3);
    InPlaceAppends(node + fixed, tiers, 0, 3, 4);
    InPlaceAppends(node + fixed + tiers, kueue, 0, 4, 5);
    InPlaceAppends(node + fixed + tiers + kueue, cluster, 0, 5, 6);
  }

  /** What each kind of level is called and which label it reads. */
  lemma LevelNames(keys: seq<LevelKey>, nodes: seq<GPUNode>, topologies: seq<KueueTopology>, k: LevelKey)
    requires AreLevels(keys, nodes, topologies) && k in keys
    ensures k.source == Node ==> k.name == "node" && k.tag == "kubernetes.io/hostname"
    ensures k.source == Tier ==> "fabric.topograph.run/" + k.name == k.tag && "tier-" <= k.name
    ensures k.source == Kueue ==> k.name == k.tag
    ensures k.source == Cluster ==> k.name == "cluster" && k.tag == ""
  {
    var tiers :| LevelsInOrder(keys, tiers, nodes, topologies);
    var present := LabelsInUse(nodes);
    var taken := Taken(Walk(topologies), TagSet([NODE_KEY] + FixedKeys(present) + tiers), nodes);
    KeysBySource(keys, tiers, present, taken);
    FixedBySource(present);
    KueueByName(taken);
    if k in tiers { TierByName(k.tag, "fabric.topograph.run/", "tier-"); }
  }

  lemma KueueByName(taken: seq<string>)
    ensures forall k :: k in KueueKeys(taken) ==> k.source == Kueue && k.name == k.tag
  {}

  lemma TierByName(l: string, domain: string, tier: string)
    requires IsTierLabel(l) && domain == "fabric.topograph.run/" && tier == "tier-"
    ensures domain + TierKey(l).name == l && tier <= TierKey(l).name
  {
    assert LABEL_TIER_PREFIX == domain + tier;
    assert l == domain + l[|domain|..];
    assert l[..|LABEL_TIER_PREFIX|] == LABEL_TIER_PREFIX;
  }

  /** Some node carries the label among its topology fields, or has a clique for it. */
  ghost predicate Carried(nodes: seq<GPUNode>, l: string) {
    exists n :: n in nodes && ((l in n.topology && n.topology[l] != "") || (l == "nvidia.com/gpu.clique" && n.clique != ""))
  }

  lemma CarriedIsInUse(nodes: seq<GPUNode>, l: string)
    ensures Carried(nodes, l) <==> l in LabelsInUse(nodes)
  {
    if l in LabelsInUse(nodes) { var n :| n in nodes && l in LabelsOfNode(n); }
    if n :| n in nodes && ((l in n.topology && n.topology[l] != "") || (l == "nvidia.com/gpu.clique" && n.clique != "")) {
      assert l in LabelsOfNode(n);
    }
  }

  /** Each NVLink grouping is a level exactly when some node carries its label. */
  lemma GroupingsInUse(keys: seq<LevelKey>, nodes: seq<GPUNode>, topologies: seq<KueueTopology>)
    requires AreLevels(keys, nodes, topologies)
    ensures (exists k :: k in keys && k.source == Clique) <==> Carried(nodes, "nvidia.com/gpu.clique")
    ensures (exists k :: k in keys && k.source == SubDomain) <==> Carried(nodes, "accelerator.topograph.run/sub-domain")
    ensures (exists k :: k in keys && k.source == Domain) <==> Carried(nodes, "accelerator.topograph.run/domain")
    ensures forall k :: k in keys && k.source == Clique ==> k.name == "clique" && k.tag == "nvidia.com/gpu.clique"
    ensures forall k :: k in keys && k.source == SubDomain ==> k.name == "accelerator-sub-domain" && k.tag == "accelerator.topograph.run/sub-domain"
    ensures forall k :: k in keys && k.source == Domain ==> k.name == "accelerator-domain" && k.tag == "accelerator.topograph.run/domain"
  {
    var tiers :| LevelsInOrder(keys, tiers, nodes, topologies);
    var present := LabelsInUse(nodes);
    CarriedIsInUse(nodes, "nvidia.com/gpu.clique");
    CarriedIsInUse(nodes, "accelerator.topograph.run/sub-domain");
    CarriedIsInUse(nodes, "accelerator.topograph.run/domain");
    KeysBySource(keys, tiers, present, Taken(Walk(topologies), TagSet([NODE_KEY] + FixedKeys(present) + tiers), nodes));
    FixedLevels(keys, present);
  }

  /** So is each fabric tier. */
  lemma TiersInUse(keys: seq<LevelKey>, nodes: seq<GPUNode>, topologies: seq<KueueTopology>, l: string)
    requires AreLevels(keys, nodes, topologies) && "fabric.topograph.run/tier-" <= l
    ensures (exists k :: k in keys && k.source == Tier && k.tag == l) <==> Carried(nodes, l)
  {
    var tiers :| LevelsInOrder(keys, tiers, nodes, topologies);
    var present := LabelsInUse(nodes);
    CarriedIsInUse(nodes, l);
    KeysBySource(keys, tiers, present, Taken(Walk(topologies), TagSet([NODE_KEY] + FixedKeys(present) + tiers), nodes));
    TierInUse(keys, tiers, present, l);
  }

  lemma FixedLevels(keys: seq<LevelKey>, present: set<string>)
    requires forall k :: k in keys && (k.source == Clique || k.source == SubDomain || k.source == Domain) <==> k in FixedKeys(present)
    ensures (exists k :: k in keys && k.source == Clique) <==> "nvidia.com/gpu.clique" in present
    ensures (exists k :: k in keys && k.source == SubDomain) <==> "accelerator.topograph.run/sub-domain" in present
    ensures (exists k :: k in keys && k.source == Domain) <==> "accelerator.topograph.run/domain" in present
    ensures forall k :: k in keys && k.source == Clique ==> k == CLIQUE_KEY
    ensures forall k :: k in keys && k.source == SubDomain ==> k == SUB_DOMAIN_KEY
    ensures forall k :: k in keys && k.source == Domain ==> k == DOMAIN_KEY
  {
    FixedBySource(present);
    if "nvidia.com/gpu.clique" in present { assert CLIQUE_KEY in FixedKeys(present); }
    if "accelerator.topograph.run/sub-domain" in present { assert SUB_DOMAIN_KEY in FixedKeys(present); }
    if "accelerator.topograph.run/domain" in present { assert DOMAIN_KEY in FixedKeys(present); }
  }

  lemma TierInUse(keys: seq<LevelKey>, tiers: seq<LevelKey>, present: set<string>, l: string)
    requires ListsTiers(tiers, present) && IsTierLabel(l)
    requires forall k :: k in keys && k.source == Tier <==> k in tiers
    ensures (exists k :: k in keys && k.source == Tier && k.tag == l) <==> l in present
  {
    if l in present { assert TierKey(l) in tiers; }
  }

  lemma KeysBySource(keys: seq<LevelKey>, tiers: seq<LevelKey>, present: set<string>, taken: seq<string>)
    requires ListsTiers(tiers, present)
    requires keys == [NODE_KEY] + FixedKeys(present) + tiers + KueueKeys(taken) + [CLUSTER_KEY]
    ensures forall k :: k in keys && k.source == Tier <==> k in tiers
    ensures forall k :: k in keys && (k.source == Clique || k.source == SubDomain || k.source == Domain) <==> k in FixedKeys(present)
  {
    forall k | k in tiers ensures k.source == Tier {}
    forall k | k in KueueKeys(taken) ensures k.source == Kueue {}
  }

  lemma FixedBySource(present: set<string>)
    ensures forall k :: k in FixedKeys(present) <==>
      (k == CLIQUE_KEY && "nvidia.com/gpu.clique" in present)
      || (k == SUB_DOMAIN_KEY && "accelerator.topograph.run/sub-domain" in present)
      || (k == DOMAIN_KEY && "accelerator.topograph.run/domain" in present)
  {}

  /** Numbered tiers stand in the order of their numbers, so tier-2 is ahead of tier-10. */
  lemma TiersByNumber(keys: seq<LevelKey>, nodes: seq<GPUNode>, topologies: seq<KueueTopology>, i: nat, j: nat, m: nat, n: nat)
    requires AreLevels(keys, nodes, topologies) && i < |keys| && j < |keys|
    requires keys[i].source == keys[j].source == Tier && m < n <= MAX_INT
    requires keys[i].tag == "fabric.topograph.run/tier-" + Decimal(m) && keys[j].tag == "fabric.topograph.run/tier-" + Decimal(n)
    ensures i < j
  {
    var tiers :| LevelsInOrder(keys, tiers, nodes, topologies);
    TiersStand(keys, tiers, nodes, topologies);
    TierOfNumber(keys[i], m);
    TierOfNumber(keys[j], n);
    AheadByNumber(keys, i, j);
  }

  /** A tier whose suffix is no number stands behind every numbered one. */
  lemma UnnumberedTiersLast(keys: seq<LevelKey>, nodes: seq<GPUNode>, topologies: seq<KueueTopology>, i: nat, j: nat, m: nat, suffix: string)
    requires AreLevels(keys, nodes, topologies) && i < |keys| && j < |keys|
    requires keys[i].source == keys[j].source == Tier && m < MAX_INT && Atoi(suffix).Bad?
    requires keys[i].tag == "fabric.topograph.run/tier-" + Decimal(m) && keys[j].tag == "fabric.topograph.run/tier-" + suffix
    ensures i < j
  {
    var tiers :| LevelsInOrder(keys, tiers, nodes, topologies);
    TiersStand(keys, tiers, nodes, topologies);
    TierOfNumber(keys[i], m);
    TierOfNone(keys[j], suffix);
    AheadByNumber(keys, i, j);
  }

  lemma TierOfNone(k: LevelKey, suffix: string)
    requires IsTierLabel(k.tag) && k == TierKey(k.tag) && k.tag == "fabric.topograph.run/tier-" + suffix && Atoi(suffix).Bad?
    ensures k.tier == MAX_INT
  {
    assert k.tag[|LABEL_TIER_PREFIX|..] == suffix;
  }

  lemma AheadByNumber(keys: seq<LevelKey>, i: nat, j: nat)
    requires i < |keys| && j < |keys| && keys[i].source == keys[j].source == Tier && keys[i].tier < keys[j].tier
    requires forall i, j :: 0 <= i < j < |keys| && keys[i].source == keys[j].source == Tier ==> TIER_LE(keys[i], keys[j])
    ensures i < j
  {}

  lemma TierOfNumber(k: LevelKey, n: nat)
    requires IsTierLabel(k.tag) && k == TierKey(k.tag) && n <= MAX_INT && k.tag == "fabric.topograph.run/tier-" + Decimal(n)
    ensures k.tier == n
  {
    AtoiDecimal(n);
    assert k.tag[|LABEL_TIER_PREFIX|..] == Decimal(n);
  }

  lemma TiersStand(keys: seq<LevelKey>, tiers: seq<LevelKey>, nodes: seq<GPUNode>, topologies: seq<KueueTopology>)
    requires LevelsInOrder(keys, tiers, nodes, topologies)
    ensures forall i :: 0 <= i < |keys| && keys[i].source == Tier ==> IsTierLabel(keys[i].tag) && keys[i] == TierKey(keys[i].tag)
    ensures forall i, j :: 0 <= i < j < |keys| && keys[i].source == keys[j].source == Tier ==> TIER_LE(keys[i], keys[j])
  {
    var present := LabelsInUse(nodes);
    var taken := Taken(Walk(topologies), TagSet([NODE_KEY] + FixedKeys(present) + tiers), nodes);
    KeysBySource(keys, tiers, present, taken);
    NoTierAround(present, taken);
    Rebracket([NODE_KEY] + FixedKeys(present) + tiers, KueueKeys(taken), [CLUSTER_KEY]);
    TierStretch(keys, [NODE_KEY] + FixedKeys(present), tiers, KueueKeys(taken) + [CLUSTER_KEY]);
  }

  lemma NoTierAround(present: set<string>, taken: seq<string>)
    ensures forall k :: k in [NODE_KEY] + FixedKeys(present) ==> k.source != Tier
    ensures forall k :: k in KueueKeys(taken) + [CLUSTER_KEY] ==> k.source != Tier
  {
    FixedBySource(present);
  }

  lemma Rebracket(a: seq<LevelKey>, b: seq<LevelKey>, c: seq<LevelKey>)
    ensures a + b + c == a + (b + c)
  {}

  lemma TierStretch(keys: seq<LevelKey>, before: seq<LevelKey>, tiers: seq<LevelKey>, behind: seq<LevelKey>)
    requires keys == before + tiers + behind && Sorted(tiers, TIER_LE)
    requires forall k :: k in before || k in behind ==> k.source != Tier
    ensures forall i, j :: 0 <= i < j < |keys| && keys[i].source == keys[j].source == Tier ==> TIER_LE(keys[i], keys[j])
  {
    forall i | 0 <= i < |before| ensures keys[i].source != Tier { assert keys[i] in before; }
    forall i | |before| + |tiers| <= i < |keys| ensures keys[i].source != Tier { assert keys[i] == behind[i - |before| - |tiers|]; }
  }

  lemma {:induction false} WalkMembers(topologies: seq<KueueTopology>, l: string)
    ensures l in Walk(topologies) <==> exists t :: 0 <= t < |topologies| && l in topologies[t].levels
  {
    if topologies != [] {
      var init, last := topologies[..|topologies| - 1], topologies[|topologies| - 1];
      WalkMembers(init, l);
      ReversedMembers(last.levels, l);
      if t :| 0 <= t < |init| && l in init[t].levels { assert topologies[t] == init[t]; }
      if t :| 0 <= t < |topologies| && l in topologies[t].levels { assert t == |init| || topologies[t] == init[t]; }
      if l in last.levels { assert l in topologies[|init|].levels; }
    }
  }

  lemma ReversedMembers(s: seq<string>, l: string)
    ensures l in Reverse(s) <==> l in s
  {
    ReverseMembers(s);
    if l in s {
      var i :| 0 <= i < |s| && s[i] == l;
      assert Reverse(s)[|s| - 1 - i] == l;
    }
  }

  /** A Kueue level is in the report exactly when a topology declares its label, no level
      above reads that label, and some node carries a value for it. */
  lemma KueueLevelsDeclared(keys: seq<LevelKey>, nodes: seq<GPUNode>, topologies: seq<KueueTopology>, l: string)
    requires AreLevels(keys, nodes, topologies)
    ensures (exists k :: k in keys && k.source == Kueue && k.tag == l) <==>
      && (exists t :: 0 <= t < |topologies| && l in topologies[t].levels)
      && (forall k :: k in keys && k.source != Kueue && k.source != Cluster ==> k.tag != l)
      && (exists n :: n in nodes && ValueAt(n, l) != "")
  {
    var tiers :| LevelsInOrder(keys, tiers, nodes, topologies);
    var named := [NODE_KEY] + FixedKeys(LabelsInUse(nodes)) + tiers;
    var taken := Taken(Walk(topologies), TagSet(named), nodes);
    NamedAreNotKueue(tiers, LabelsInUse(nodes));
    NamedAreNotCluster(tiers, LabelsInUse(nodes));
    TakenFacts(Walk(topologies), TagSet(named), nodes);
    WalkMembers(topologies, l);
    KueueOfTaken(keys, named, taken, l);
    assert (exists n :: n in nodes && ValueAt(n, l) != "") <==> ValuesInUse(nodes, l) != {} by { ValuesExist(nodes, l); }
    assert l in TagSet(named) <==> exists k :: k in named && k.tag == l;
  }

  lemma NamedAreNotCluster(tiers: seq<LevelKey>, present: set<string>)
    requires ListsTiers(tiers, present)
    ensures forall k :: k in [NODE_KEY] + FixedKeys(present) + tiers ==> k.source != Cluster
  {}

  lemma ValuesExist(nodes: seq<GPUNode>, l: string)
    ensures (exists n :: n in nodes && ValueAt(n, l) != "") <==> ValuesInUse(nodes, l) != {}
  {
    if n :| n in nodes && ValueAt(n, l) != "" { assert ValueAt(n, l) in ValuesInUse(nodes, l); }
    if ValuesInUse(nodes, l) != {} {
      var v :| v in ValuesInUse(nodes, l);
      var n :| n in nodes && ValueAt(n, l) != "" && ValueAt(n, l) == v;
    }
  }

  lemma KueueOfTaken(keys: seq<LevelKey>, named: seq<LevelKey>, taken: seq<string>, l: string)
    requires keys == named + KueueKeys(taken) + [CLUSTER_KEY]
    requires forall k :: k in named ==> k.source != Kueue && k.source != Cluster
    ensures (exists k :: k in keys && k.source == Kueue && k.tag == l) <==> l in taken
    ensures forall k :: k in keys && k.source != Kueue && k.source != Cluster <==> k in named
  {
    forall k | k in KueueKeys(taken) ensures k.source == Kueue && k.tag in taken {
      var i :| 0 <= i < |taken| && KueueKeys(taken)[i] == k;
    }
    if l in taken {
      var i :| 0 <= i < |taken| && taken[i] == l;
      assert KueueKeys(taken)[i] == KueueKey(l);
      assert KueueKey(l) in keys;
    }
  }

  // ----- the Kueue levels run from narrow to wide -----

  ghost predicate Precedes(s: seq<string>, x: string, y: string) {
    exists i, j :: 0 <= i < j < |s| && s[i] == x && s[j] == y
  }

  /** A label taken ahead of another is first met ahead of it on the walk. */
  lemma {:induction false} TakenKeepsWalkOrder(walk: seq<string>, k: nat, x: string, y: string, above: set<string>, nodes: seq<GPUNode>)
    requires k <= |walk| && x in walk[..k] && y !in walk[..k] && y in walk
    requires x !in above && y !in above && ValuesInUse(nodes, x) != {} && ValuesInUse(nodes, y) != {}
    ensures Precedes(Taken(walk, above, nodes), x, y)
  {
    assert k < |walk| by { assert walk[..|walk|] == walk; }
    var init, last := walk[..|walk| - 1], walk[|walk| - 1];
    assert walk == init + [last];
    assert init[..k] == walk[..k];
    if y in init {
      TakenKeepsWalkOrder(init, k, x, y, above, nodes);
      var t := Taken(init, above, nodes);
      var i, j :| 0 <= i < j < |t| && t[i] == x && t[j] == y;
      assert Taken(walk, above, nodes)[..|t|] == t;
      assert Taken(walk, above, nodes)[i] == x && Taken(walk, above, nodes)[j] == y;
    } else {
      TakenFacts(init, above, nodes);
      var t := Taken(init, above, nodes);
      assert x in init by { var p :| 0 <= p < k && walk[..k][p] == x; assert init[p] == x; }
      var i :| 0 <= i < |t| && t[i] == x;
      var after := Taken(walk, above, nodes);
      assert after == t + [y] && after[i] == x && after[|t|] == y;
    }
  }

  lemma {:induction false} ReverseMembers(s: seq<string>)
    ensures |Reverse(s)| == |s|
    ensures forall i :: 0 <= i < |s| ==> Reverse(s)[i] == s[|s| - 1 - i]
  {
    if s != [] { ReverseMembers(s[..|s| - 1]); }
  }

  lemma {:induction false} WalkReaches(topologies: seq<KueueTopology>, t: nat) returns (rest: seq<string>)
    requires t < |topologies|
    ensures Walk(topologies) == Walk(topologies[..t]) + Reverse(topologies[t].levels) + rest
  {
    var n := |topologies| - 1;
    if t == n {
      rest := [];
      assert topologies[..t] == topologies[..n];
    } else {
      var before := WalkReaches(topologies[..n], t);
      assert topologies[..n][..t] == topologies[..t];
      rest := before + Reverse(topologies[n].levels);
    }
  }

  lemma AheadOnWalk(walk: seq<string>, before: seq<string>, middle: seq<string>, rest: seq<string>, at: nat, y: string)
    requires walk == before + middle + rest && at < |middle|
    requires y !in before && forall i :: 0 <= i <= at ==> middle[i] != y
    ensures |before| + at + 1 <= |walk|
    ensures middle[at] in walk[..|before| + at + 1] && y !in walk[..|before| + at + 1]
    ensures forall i :: 0 <= i < |middle| ==> middle[i] in walk
  {
    assert walk[..|before| + at + 1] == before + middle[..at + 1];
    assert middle[..at + 1][at] == middle[at];
    forall i | 0 <= i < |middle| ensures middle[i] in walk { assert walk[|before| + i] == middle[i]; }
  }

  lemma NarrowAhead(levels: seq<string>, wide: nat, narrow: nat)
    requires wide < narrow < |levels| && forall i :: narrow <= i < |levels| ==> levels[i] != levels[wide]
    ensures |Reverse(levels)| == |levels|
    ensures Reverse(levels)[|levels| - 1 - narrow] == levels[narrow] && Reverse(levels)[|levels| - 1 - wide] == levels[wide]
    ensures forall i :: 0 <= i <= |levels| - 1 - narrow ==> Reverse(levels)[i] != levels[wide]
  {
    ReverseMembers(levels);
  }

  /** Of two labels a topology declares, the later, narrower one comes first in the
      report, unless an earlier topology already settled the wider one, a level above
      settled either, or the wider one is declared again behind it. */
  lemma KueueNarrowFirst(topologies: seq<KueueTopology>, t: nat, wide: nat, narrow: nat, above: set<string>, nodes: seq<GPUNode>)
    requires t < |topologies| && wide < narrow < |topologies[t].levels|
    requires var levels := topologies[t].levels;
      var x, y := levels[narrow], levels[wide];
      && (forall i :: narrow <= i < |levels| ==> levels[i] != y)
      && y !in Walk(topologies[..t])
      && x !in above && y !in above && ValuesInUse(nodes, x) != {} && ValuesInUse(nodes, y) != {}
    ensures Precedes(Taken(Walk(topologies), above, nodes), topologies[t].levels[narrow], topologies[t].levels[wide])
  {
    var levels := topologies[t].levels;
    var at := |levels| - 1 - narrow;
    var rest := WalkReaches(topologies, t);
    NarrowAhead(levels, wide, narrow);
    AheadOnWalk(Walk(topologies), Walk(topologies[..t]), Reverse(levels), rest, at, levels[wide]);
    TakenKeepsWalkOrder(Walk(topologies), |Walk(topologies[..t])| + at + 1, levels[narrow], levels[wide], above, nodes);
  }

  /** In the levels of a cluster, of two Kueue levels one topology declares, the later,
      narrower one comes first, unless an earlier topology declares the wider one or it
      is declared again behind the other. */
  lemma KueueLevelsNarrowFirst(keys: seq<LevelKey>, nodes: seq<GPUNode>, topologies: seq<KueueTopology>, t: nat, wide: nat, narrow: nat)
    returns (i: nat, j: nat)
    requires AreLevels(keys, nodes, topologies)
    requires t < |topologies| && wide < narrow < |topologies[t].levels|
    requires KueueKey(topologies[t].levels[narrow]) in keys && KueueKey(topologies[t].levels[wide]) in keys
    requires topologies[t].levels[wide] !in Walk(topologies[..t])
    requires forall k :: narrow <= k < |topologies[t].levels| ==> topologies[t].levels[k] != topologies[t].levels[wide]
    ensures i < j < |keys|
    ensures keys[i] == KueueKey(topologies[t].levels[narrow]) && keys[j] == KueueKey(topologies[t].levels[wide])
  {
    var tiers :| LevelsInOrder(keys, tiers, nodes, topologies);
    var named := [NODE_KEY] + FixedKeys(LabelsInUse(nodes)) + tiers;
    NamedAreNotKueue(tiers, LabelsInUse(nodes));
    i, j := TakenNarrowFirst(keys, named, nodes, topologies, t, wide, narrow);
  }

  lemma NamedAreNotKueue(tiers: seq<LevelKey>, present: set<string>)
    requires ListsTiers(tiers, present)
    ensures forall k :: k in [NODE_KEY] + FixedKeys(present) + tiers ==> k.source != Kueue
  {}

  lemma TakenNarrowFirst(keys: seq<LevelKey>, named: seq<LevelKey>, nodes: seq<GPUNode>, topologies: seq<KueueTopology>,
                         t: nat, wide: nat, narrow: nat)
    returns (i: nat, j: nat)
    requires keys == named + KueueKeys(Taken(Walk(topologies), TagSet(named), nodes)) + [CLUSTER_KEY]
    requires forall k :: k in named ==> k.source != Kueue
    requires t < |topologies| && wide < narrow < |topologies[t].levels|
    requires KueueKey(topologies[t].levels[narrow]) in keys && KueueKey(topologies[t].levels[wide]) in keys
    requires topologies[t].levels[wide] !in Walk(topologies[..t])
    requires forall k :: narrow <= k < |topologies[t].levels| ==> topologies[t].levels[k] != topologies[t].levels[wide]
    ensures i < j < |keys|
    ensures keys[i] == KueueKey(topologies[t].levels[narrow]) && keys[j] == KueueKey(topologies[t].levels[wide])
  {
    var x, y, taken := topologies[t].levels[narrow], topologies[t].levels[wide], Taken(Walk(topologies), TagSet(named), nodes);
    TakenFacts(Walk(topologies), TagSet(named), nodes);
    KueueKeysAreTaken(keys, named, taken, x);
    KueueKeysAreTaken(keys, named, taken, y);
    KueueNarrowFirst(topologies, t, wide, narrow, TagSet(named), nodes);
    i, j := PrecedesInKeys(keys, named, taken, x, y);
  }

  lemma PrecedesInKeys(keys: seq<LevelKey>, named: seq<LevelKey>, taken: seq<string>, x: string, y: string) returns (i: nat, j: nat)
    requires keys == named + KueueKeys(taken) + [CLUSTER_KEY] && Precedes(taken, x, y)
    ensures i < j < |keys| && keys[i] == KueueKey(x) && keys[j] == KueueKey(y)
  {
    var a, b :| 0 <= a < b < |taken| && taken[a] == x && taken[b] == y;
    i, j := |named| + a, |named| + b;
    assert keys[i] == KueueKeys(taken)[a] && keys[j] == KueueKeys(taken)[b];
  }

  lemma KueueKeysAreTaken(keys: seq<LevelKey>, named: seq<LevelKey>, taken: seq<string>, l: string)
    requires keys == named + KueueKeys(taken) + [CLUSTER_KEY] && KueueKey(l) in keys
    requires forall k :: k in named ==> k.source != Kueue
    ensures l in taken
  {
    assert KueueKey(l) in KueueKeys(taken);
    var i :| 0 <= i < |taken| && KueueKeys(taken)[i] == KueueKey(l);
    assert taken[i] == l;
  }

  // ----- the report -----

  ghost predicate GroupsOfLevel(groups: seq<Group>, key: LevelKey, nodes: seq<GPUNode>) {
    match key.source
    case Node => OnePerNode(groups, nodes)
    case Cluster => WholeCluster(groups, nodes)
    case _ => DividesBy(groups, nodes, key.tag)
  }

  ghost predicate IsReport(levels: seq<Level>, keys: seq<LevelKey>, nodes: seq<GPUNode>) {
    |levels| == |keys| && forall i :: 0 <= i < |keys| ==> IsLevel(levels[i], keys[i], nodes)
  }

  /** A report of the levels these nodes and topologies have. */
  ghost predicate IsReportOf(levels: seq<Level>, nodes: seq<GPUNode>, topologies: seq<KueueTopology>) {
    exists keys :: AreLevels(keys, nodes, topologies) && IsReport(levels, keys, nodes)
  }

  ghost predicate IsLevel(level: Level, key: LevelKey, nodes: seq<GPUNode>) {
    && level.name == key.name && level.tag == key.tag && level.source == key.source
    && GroupsOfLevel(level.groups, key, nodes)
  }

  method Build(nodes: seq<GPUNode>, topologies: seq<KueueTopology>)
    returns (levels: seq<Level>)
    ensures IsReportOf(levels, nodes, topologies)
  {
    var all := LevelsOf(nodes, topologies);
    levels := [];
    for i := 0 to |all|
      invariant |levels| == i && BuiltSoFar(levels, all, nodes)
    {
      var groups := GroupsFor(all[i], nodes);
      var level := Level(all[i].name, all[i].tag, all[i].source, groups);
      LevelBuilt(levels, level, all, nodes);
      levels := levels + [level];
    }
    ReportOf(levels, all, nodes, topologies);
  }

  /** Each level so far is the level of its key. */
  ghost predicate BuiltSoFar(levels: seq<Level>, keys: seq<LevelKey>, nodes: seq<GPUNode>) {
    |levels| <= |keys| && forall i :: 0 <= i < |levels| ==> IsLevel(levels[i], keys[i], nodes)
  }

  lemma LevelBuilt(levels: seq<Level>, level: Level, keys: seq<LevelKey>, nodes: seq<GPUNode>)
    requires |levels| < |keys| && BuiltSoFar(levels, keys, nodes)
    requires level.name == keys[|levels|].name && level.tag == keys[|levels|].tag && level.source == keys[|levels|].source
    requires GroupsOfLevel(level.groups, keys[|levels|], nodes)
    ensures BuiltSoFar(levels + [level], keys, nodes)
  {}

  lemma ReportOf(levels: seq<Level>, keys: seq<LevelKey>, nodes: seq<GPUNode>, topologies: seq<KueueTopology>)
    requires AreLevels(keys, nodes, topologies) && |levels| == |keys| && BuiltSoFar(levels, keys, nodes)
    ensures IsReportOf(levels, nodes, topologies)
  {
    assert IsReport(levels, keys, nodes);
  }

  method GroupsFor(key: LevelKey, nodes: seq<GPUNode>) returns (groups: seq<Group>)
    ensures GroupsOfLevel(groups, key, nodes)
  {
    match key.source {
      case Node => groups := GroupsPerNode(nodes);
      case Cluster => groups := GroupsWholeCluster(nodes);
      case _ => groups := GroupsAt(nodes, key.tag);
    }
  }
}
