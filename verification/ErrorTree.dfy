/**
 The errors of a run as a tree: pkg/health/engine/engine.go, collectPartial and
 classifyInputError, and pkg/output/exitcode.go, ExitCodeFor.
 */
module ErrorTree {
  import opened Prefixes
  import opened Findings
  import opened Sorting

  /** The exit code an error type carries, when it carries one. */
  datatype Code = NoCode | Exit(code: int)

  /** Nil is the nil error, as a wrapper or a join may hold. */
  datatype Err =
    | Nil
    | Partial(resource: string, reason: string)
    | Join(children: seq<Err>)
    | Wrap(child: Err, own: Code)
    | Hard(message: string, own: Code)

  /** The leaves in the order a walk meets them, cutting at partial reads. */
  function Leaves(e: Err): seq<Err>
    decreases e, 0
  {
    match e
    case Nil => []
    case Partial(_, _) => [e]
    case Hard(_, _) => [e]
    case Wrap(child, _) => Leaves(child)
    case Join(children) => LeavesOfAll(children)
  }

  function LeavesOfAll(es: seq<Err>): seq<Err>
    decreases es, 1
  {
    if es == [] then [] else LeavesOfAll(es[..|es| - 1]) + Leaves(es[|es| - 1])
  }

  // ----- the leaves, by where they lie -----

  /** The node a path of child numbers leads to, down through wrappers and joins; a
      partial read ends the way. */
  function NodeAt(e: Err, path: seq<nat>): (n: Err)
    decreases |path|
  {
    if path == [] then e
    else
      match e
      case Wrap(child, _) => if path[0] == 0 then NodeAt(child, path[1..]) else Nil
      case Join(children) => if path[0] < |children| then NodeAt(children[path[0]], path[1..]) else Nil
      case _ => Nil
  }

  predicate IsLeaf(e: Err) { e.Hard? || e.Partial? }

  /** The path leads to a hard failure. */
  predicate HardAt(e: Err, path: seq<nat>) { NodeAt(e, path).Hard? }

  /** a comes before b on a walk from the left. */
  predicate Ahead(a: seq<nat>, b: seq<nat>)
    decreases |a|
  {
    b != [] && (a == [] || a[0] < b[0] || (a[0] == b[0] && Ahead(a[1..], b[1..])))
  }

  ghost predicate FromTheLeft(paths: seq<seq<nat>>) {
    forall i, j :: 0 <= i < j < |paths| ==> Ahead(paths[i], paths[j])
  }

  ghost predicate LeadEach(paths: seq<seq<nat>>, leaves: seq<Err>, e: Err) {
    |paths| == |leaves| && forall i :: 0 <= i < |paths| ==> NodeAt(e, paths[i]) == leaves[i] && IsLeaf(leaves[i])
  }

  /** The paths lead to the leaves, one by one, from the left, and there are no others. */
  ghost predicate LeadTo(paths: seq<seq<nat>>, leaves: seq<Err>, e: Err) {
    LeadEach(paths, leaves, e) && FromTheLeft(paths) && forall p :: IsLeaf(NodeAt(e, p)) ==> p in paths
  }

  function Under(k: nat, paths: seq<seq<nat>>): seq<seq<nat>> {
    seq(|paths|, i requires 0 <= i < |paths| => [k] + paths[i])
  }

  lemma UnderEach(k: nat, paths: seq<seq<nat>>)
    ensures forall i :: 0 <= i < |paths| ==> Under(k, paths)[i][0] == k && Under(k, paths)[i][1..] == paths[i]
    ensures forall p: seq<nat> :: p != [] && p[0] == k && p[1..] in paths ==> p in Under(k, paths)
  {
    forall p: seq<nat> | p != [] && p[0] == k && p[1..] in paths ensures p in Under(k, paths) {
      var i :| 0 <= i < |paths| && paths[i] == p[1..];
      assert Under(k, paths)[i] == p;
    }
  }

  /** The walk meets every leaf there is, each once, from the left. */
  lemma {:induction false} LeavesFromTheLeft(e: Err) returns (paths: seq<seq<nat>>)
    ensures LeadTo(paths, Leaves(e), e)
    decreases e, 0
  {
    match e {
      case Nil => paths := [];
      case Partial(_, _) => paths := [[]];
      case Hard(_, _) => paths := [[]];
      case Wrap(child, _) =>
        var below := LeavesFromTheLeft(child);
        UnderEach(0, below);
        paths := Under(0, below);
        forall p | IsLeaf(NodeAt(e, p)) ensures p in paths { assert p[0] == 0 && IsLeaf(NodeAt(child, p[1..])); }
      case Join(children) =>
        assert children[..|children|] == children;
        paths := JoinedFromTheLeft(e, children, children);
    }
  }

  ghost predicate StartBelow(paths: seq<seq<nat>>, width: nat) {
    forall i :: 0 <= i < |paths| ==> paths[i] != [] && paths[i][0] < width
  }

  ghost predicate HasAll(paths: seq<seq<nat>>, e: Err, width: nat) {
    forall p :: IsLeaf(NodeAt(e, p)) && p != [] && p[0] < width ==> p in paths
  }

  /** The same of the first children of a join. */
  ghost predicate LeadToFirst(paths: seq<seq<nat>>, leaves: seq<Err>, e: Err, width: nat) {
    LeadEach(paths, leaves, e) && FromTheLeft(paths) && StartBelow(paths, width) && HasAll(paths, e, width)
  }

  lemma {:induction false} JoinedFromTheLeft(e: Err, children: seq<Err>, first: seq<Err>) returns (paths: seq<seq<nat>>)
    requires e == Join(children) && |first| <= |children| && first == children[..|first|]
    ensures LeadToFirst(paths, LeavesOfAll(first), e, |first|)
    decreases first, 1
  {
    if first == [] { return []; }
    var k := |first| - 1;
    assert first[..k] == children[..k] && first[k] == children[k];
    var before := JoinedFromTheLeft(e, children, first[..k]);
    var below := LeavesFromTheLeft(first[k]);
    paths := before + Under(k, below);
    OneChildMore(e, children, k, before, LeavesOfAll(first[..k]), below);
  }

  lemma OneChildMore(e: Err, children: seq<Err>, k: nat, before: seq<seq<nat>>, leaves: seq<Err>, below: seq<seq<nat>>)
    requires e == Join(children) && k < |children|
    requires LeadToFirst(before, leaves, e, k) && LeadTo(below, Leaves(children[k]), children[k])
    ensures LeadToFirst(before + Under(k, below), leaves + Leaves(children[k]), e, k + 1)
  {
    UnderLeads(e, children, k, below);
    UnderOrder(k, before, below);
    UnderHasAll(e, children, k, before, below);
  }

  lemma UnderLeads(e: Err, children: seq<Err>, k: nat, below: seq<seq<nat>>)
    requires e == Join(children) && k < |children| && LeadEach(below, Leaves(children[k]), children[k])
    ensures LeadEach(Under(k, below), Leaves(children[k]), e)
  {
    UnderEach(k, below);
  }

  lemma UnderOrder(k: nat, before: seq<seq<nat>>, below: seq<seq<nat>>)
    requires FromTheLeft(before) && StartBelow(before, k) && FromTheLeft(below)
    ensures FromTheLeft(before + Under(k, below)) && StartBelow(before + Under(k, below), k + 1)
  {
    UnderEach(k, below);
    var paths := before + Under(k, below);
    forall i, j | 0 <= i < j < |paths| ensures Ahead(paths[i], paths[j]) {
      if i >= |before| { assert Ahead(below[i - |before|], below[j - |before|]); }
    }
  }

  lemma UnderHasAll(e: Err, children: seq<Err>, k: nat, before: seq<seq<nat>>, below: seq<seq<nat>>)
    requires e == Join(children) && k < |children| && HasAll(before, e, k)
    requires forall p :: IsLeaf(NodeAt(children[k], p)) ==> p in below
    ensures HasAll(before + Under(k, below), e, k + 1)
  {
    UnderEach(k, below);
    forall p | IsLeaf(NodeAt(e, p)) && p != [] && p[0] < k + 1 ensures p in before + Under(k, below) {
      if p[0] == k { assert IsLeaf(NodeAt(children[k], p[1..])); }
    }
  }

  /** Every leaf is a partial read exactly when no path leads to a hard failure. */
  lemma HardLeafIsReached(e: Err)
    ensures AllPartial(Leaves(e)) <==> !exists path :: HardAt(e, path)
  {
    var paths := LeavesFromTheLeft(e);
    if path :| HardAt(e, path) {
      assert path in paths;
      var i :| 0 <= i < |paths| && paths[i] == path;
      assert Leaves(e)[i] in Leaves(e);
    }
    if !AllPartial(Leaves(e)) {
      var l :| l in Leaves(e) && !l.Partial?;
      var i :| 0 <= i < |paths| && Leaves(e)[i] == l;
      assert HardAt(e, paths[i]);
    }
  }

  predicate AllPartial(leaves: seq<Err>) { forall l :: l in leaves ==> l.Partial? }

  lemma {:induction false} LeavesOfPrefix(es: seq<Err>, i: nat)
    requires i <= |es|
    ensures LeavesOfAll(es[..i]) <= LeavesOfAll(es)
  {
    if i < |es| {
      LeavesOfPrefix(es[..|es| - 1], i);
      assert es[..|es| - 1][..i] == es[..i];
    } else {
      assert es[..i] == es;
    }
  }

  /** Succeeds exactly when every leaf is a partial read, and returns exactly those,
      in the order of the walk. */
  method CollectPartial(e: Err) returns (ok: bool, partials: seq<Err>)
    ensures ok <==> AllPartial(Leaves(e))
    ensures partials == if ok then Leaves(e) else []
    ensures ok <==> !exists path :: HardAt(e, path)
    decreases e
  {
    HardLeafIsReached(e);
    match e {
      case Nil => return true, [];
      case Partial(_, _) => return true, [e];
      case Join(children) =>
        var out: seq<Err> := [];
        for i := 0 to |children|
          invariant out == LeavesOfAll(children[..i]) && AllPartial(out)
        {
          var fine, under := CollectPartial(children[i]);
          PrefixSnoc(children, i);
          if !fine {
            LeavesOfPrefix(children, i + 1);
            HardLeafStays(children, i);
            return false, [];
          }
          out := out + under;
        }
        WholePrefix(children);
        return true, out;
      case Wrap(child, _) =>
        ok, partials := CollectPartial(child);
      case Hard(_, _) => return false, [];
    }
  }

  lemma HardLeafStays(es: seq<Err>, i: nat)
    requires i < |es| && !AllPartial(Leaves(es[i]))
    ensures !AllPartial(LeavesOfAll(es))
  {
    LeavesOfPrefix(es, i + 1);
    PrefixSnoc(es, i);
    var l :| l in Leaves(es[i]) && !l.Partial?;
    assert l in LeavesOfAll(es[..i + 1]);
  }

  datatype Unreachable = Unreachable(resource: string, reason: string)

  const BY_RESOURCE: (Unreachable, Unreachable) -> bool := (a: Unreachable, b: Unreachable) => StringLe(a.resource, b.resource)

  function Missed(leaves: seq<Err>): seq<Unreachable>
    requires AllPartial(leaves)
  {
    seq(|leaves|, i requires 0 <= i < |leaves| => assert leaves[i] in leaves; Unreachable(leaves[i].resource, leaves[i].reason))
  }

  /** What the report says was not read, or that the run did not happen. */
  method ClassifyInputError(e: Err) returns (ok: bool, unreachable: seq<Unreachable>)
    ensures ok <==> AllPartial(Leaves(e))
    ensures ok ==> unreachable == Sort(Missed(Leaves(e)), BY_RESOURCE)
    ensures ok ==> (unreachable == [] <==> Leaves(e) == [])
  {
    if e.Nil? { return true, []; }
    var partials;
    ok, partials := CollectPartial(e);
    if !ok { return false, []; }
    unreachable := [];
    for i := 0 to |partials|
      invariant |unreachable| == i
      invariant forall k :: 0 <= k < i ==> unreachable[k] == Unreachable(partials[k].resource, partials[k].reason)
    {
      assert partials[i] in partials;
      unreachable := unreachable + [Unreachable(partials[i].resource, partials[i].reason)];
    }
    assert unreachable == Missed(partials);
    SortPermutes(unreachable, BY_RESOURCE);
    unreachable := Sort(unreachable, BY_RESOURCE);
  }

  /** What was missed, in words: of each partial read its resource and reason, in order of
      resource. */
  lemma MissedInWords(leaves: seq<Err>)
    requires AllPartial(leaves)
    ensures forall u: Unreachable :: u in Sort(Missed(leaves), BY_RESOURCE) <==> Partial(u.resource, u.reason) in leaves
    ensures forall i, j :: 0 <= i < j < |leaves| ==>
      |Sort(Missed(leaves), BY_RESOURCE)| == |leaves| &&
      StringLe(Sort(Missed(leaves), BY_RESOURCE)[i].resource, Sort(Missed(leaves), BY_RESOURCE)[j].resource)
  {
    var missed := Missed(leaves);
    SortMembers(missed, BY_RESOURCE);
    SortPermutes(missed, BY_RESOURCE);
    forall a, b: Unreachable ensures BY_RESOURCE(a, b) || BY_RESOURCE(b, a) { StringLeTotal(a.resource, b.resource); }
    forall a, b, c: Unreachable | BY_RESOURCE(a, b) && BY_RESOURCE(b, c) ensures BY_RESOURCE(a, c) {
      StringLeTransitive(a.resource, b.resource, c.resource);
    }
    SortOrders(missed, BY_RESOURCE);
    forall i, j | 0 <= i < j < |leaves| ensures StringLe(Sort(missed, BY_RESOURCE)[i].resource, Sort(missed, BY_RESOURCE)[j].resource) {
      assert BY_RESOURCE(Sort(missed, BY_RESOURCE)[i], Sort(missed, BY_RESOURCE)[j]);
    }
    forall u: Unreachable | Partial(u.resource, u.reason) in leaves ensures u in missed {
      var i :| 0 <= i < |leaves| && leaves[i] == Partial(u.resource, u.reason);
      assert missed[i] == u;
    }
    forall u | u in missed ensures Partial(u.resource, u.reason) in leaves {
      var i :| 0 <= i < |missed| && missed[i] == u;
      assert leaves[i] in leaves;
    }
  }

  // ----- the code an error carries -----

  /** The first code a depth-first walk meets. */
  function FirstCode(e: Err): Code
    decreases e, 0
  {
    match e
    case Nil => NoCode
    case Partial(_, _) => Exit(EXIT_PARTIAL)
    case Hard(_, own) => own
    case Wrap(child, own) => if own.Exit? then own else FirstCode(child)
    case Join(children) => FirstCodeOfAll(children)
  }

  function FirstCodeOfAll(es: seq<Err>): Code
    decreases es, 1
  {
    if es == [] then NoCode
    else if FirstCode(es[0]).Exit? then FirstCode(es[0])
    else FirstCodeOfAll(es[1..])
  }

  function ExitCodeFor(e: Err): int {
    if e.Nil? then EXIT_OK else if FirstCode(e).Exit? then FirstCode(e).code else EXIT_ERROR
  }

  /** The code of an error is its own, when it has one, or that of what it wraps, or that
      of the first it joins to carry any; 3 for a partial read, 4 for none. */
  lemma CodeInParts(e: Err, c: int, message: string, resource: string, reason: string)
    ensures ExitCodeFor(Nil) == 0 && ExitCodeFor(Partial(resource, reason)) == 3
    ensures ExitCodeFor(Hard(message, Exit(c))) == c && ExitCodeFor(Hard(message, NoCode)) == 4
    ensures ExitCodeFor(Wrap(e, Exit(c))) == c
    ensures ExitCodeFor(Wrap(e, NoCode)) == if e.Nil? then 4 else ExitCodeFor(e)
    ensures ExitCodeFor(Join([Hard(message, NoCode), Partial(resource, reason), Hard(message, Exit(c))])) == 3
  {
    var parts := [Hard(message, NoCode), Partial(resource, reason), Hard(message, Exit(c))];
    assert FirstCodeOfAll(parts[1..]) == FirstCode(parts[1..][0]) == Exit(3);
    assert FirstCodeOfAll(parts) == FirstCodeOfAll(parts[1..]);
  }

  /** No wrapper on the way carries a code of its own. */
  predicate PlainWrappers(e: Err)
    decreases e
  {
    match e
    case Wrap(child, own) => own.NoCode? && PlainWrappers(child)
    case Join(children) => forall c :: c in children ==> PlainWrappers(c)
    case _ => true
  }

  /** An error all of whose leaves are partial reads, and that has one, exits 3. */
  lemma {:induction false} PartialReadsExitPartial(e: Err)
    requires AllPartial(Leaves(e)) && PlainWrappers(e)
    ensures Leaves(e) != [] ==> FirstCode(e) == Exit(EXIT_PARTIAL)
    ensures Leaves(e) == [] ==> FirstCode(e) == NoCode
    decreases e, 0
  {
    match e
    case Wrap(child, _) => PartialReadsExitPartial(child);
    case Join(children) => PartialJoinsExitPartial(children);
    case _ =>
  }

  lemma {:induction false} LeavesFromFront(es: seq<Err>)
    requires es != []
    ensures LeavesOfAll(es) == Leaves(es[0]) + LeavesOfAll(es[1..])
  {
    if |es| > 1 {
      LeavesFromFront(es[..|es| - 1]);
      assert es[..|es| - 1][1..] == es[1..][..|es| - 2];
    } else {
      assert LeavesOfAll(es[..0]) == [];
    }
  }

  lemma {:induction false} PartialJoinsExitPartial(es: seq<Err>)
    requires AllPartial(LeavesOfAll(es)) && forall c :: c in es ==> PlainWrappers(c)
    ensures LeavesOfAll(es) != [] ==> FirstCodeOfAll(es) == Exit(EXIT_PARTIAL)
    ensures LeavesOfAll(es) == [] ==> FirstCodeOfAll(es) == NoCode
    decreases es, 1
  {
    if es != [] {
      LeavesFromFront(es);
      assert AllPartial(Leaves(es[0])) && AllPartial(LeavesOfAll(es[1..])) by {
        assert forall l :: l in Leaves(es[0]) || l in LeavesOfAll(es[1..]) ==> l in LeavesOfAll(es);
      }
      PartialReadsExitPartial(es[0]);
      PartialJoinsExitPartial(es[1..]);
    }
  }
}
