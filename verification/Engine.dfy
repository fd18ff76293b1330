/**
 pkg/health/engine/engine.go: a run of the health rules, --node, the summary, and
 the exit status of the command around it (pkg/cmd/health/health.go, exitFor). A
 rule is any pure function of the input.
 */
module Engine {
  import opened Prefixes
  import opened Sorting
  import opened Findings
  import opened ErrorTree

  datatype Node = Node(name: string, capacity: int, allocatable: int, requested: int, requestedKnown: bool)

  /** `rest` stands for everything else the rules may read. */
  datatype Input = Input(nodes: seq<Node>, hinted: seq<Node>, operatorVersion: string, rest: string)

  datatype Rule = NoRule | Rule(applies: string -> bool, evaluate: Input -> seq<Finding>)

  datatype Summary = Summary(
    nodesChecked: nat, errors: nat, warnings: nat, infos: nat,
    capacity: int, allocatable: int, requested: int, requestedKnown: bool)

  datatype Report = Report(findings: seq<Finding>, partial: bool, unreachable: seq<Unreachable>, summary: Summary)

  datatype Outcome = Reported(report: Report) | DidNotHappen | UnknownNode | MaybeUnreadNode

  function CatalogPath(code: string): string {
    if code == "" then "" else "docs/findings/" + code + ".md"
  }

  function Documented(f: Finding): Finding {
    if f.docs == "" then f.(docs := CatalogPath(f.code)) else f
  }

  function Keep(node: string): Finding -> bool { (f: Finding) => node == "" || f.node == "" || f.node == node }

  function AllDocumented(fs: seq<Finding>): seq<Finding> {
    if fs == [] then [] else AllDocumented(fs[..|fs| - 1]) + [Documented(fs[|fs| - 1])]
  }

  /** Everything the rules that apply conclude from the whole input, in rule order. */
  function Concluded(rules: seq<Rule>, input: Input): seq<Finding> {
    if rules == [] then []
    else
      var before, last := Concluded(rules[..|rules| - 1], input), rules[|rules| - 1];
      if last.NoRule? || !last.applies(input.operatorVersion) then before
      else before + AllDocumented(last.evaluate(input))
  }

  function Named(name: string): Node -> bool { (n: Node) => n.name == name }

  function Checked(input: Input, node: string): seq<Node> {
    if node == "" then input.nodes + input.hinted else Filter(input.nodes + input.hinted, Named(node))
  }

  function WithSeverity(severity: string): Finding -> bool { (f: Finding) => f.severity == severity }

  function Sum(nodes: seq<Node>, f: Node -> int): int {
    if nodes == [] then 0 else Sum(nodes[..|nodes| - 1], f) + f(nodes[|nodes| - 1])
  }

  const CAPACITY: Node -> int := (n: Node) => n.capacity
  const ALLOCATABLE: Node -> int := (n: Node) => n.allocatable
  const REQUESTED: Node -> int := (n: Node) => n.requested

  /** The counts are of the findings carried, the totals of the nodes checked, and
      what is requested is known only when it is for each of them. */
  ghost predicate Summarises(s: Summary, nodes: seq<Node>, findings: seq<Finding>) {
    && s.nodesChecked == |nodes|
    && s.errors == |Filter(findings, WithSeverity("error"))|
    && s.warnings == |Filter(findings, WithSeverity("warning"))|
    && s.infos == |Filter(findings, WithSeverity("info"))|
    && s.capacity == Sum(nodes, CAPACITY)
    && s.allocatable == Sum(nodes, ALLOCATABLE)
    && s.requested == Sum(nodes, REQUESTED)
    && (s.requestedKnown <==> nodes != [] && forall n :: n in nodes ==> n.requestedKnown)
  }

  method CountSeverities(findings: seq<Finding>) returns (errors: nat, warnings: nat, infos: nat)
    ensures errors == |Filter(findings, WithSeverity("error"))|
    ensures warnings == |Filter(findings, WithSeverity("warning"))|
    ensures infos == |Filter(findings, WithSeverity("info"))|
  {
    errors, warnings, infos := 0, 0, 0;
    for i := 0 to |findings|
      invariant errors == |Filter(findings[..i], WithSeverity("error"))|
      invariant warnings == |Filter(findings[..i], WithSeverity("warning"))|
      invariant infos == |Filter(findings[..i], WithSeverity("info"))|
    {
      var f := findings[i];
      assert findings[..i + 1] == findings[..i] + [f];
      FilterSnoc(findings[..i], f, WithSeverity("error"));
      FilterSnoc(findings[..i], f, WithSeverity("warning"));
      FilterSnoc(findings[..i], f, WithSeverity("info"));
      if f.severity == "error" {
        errors := errors + 1;
      } else if f.severity == "warning" {
        warnings := warnings + 1;
      } else if f.severity == "info" {
        infos := infos + 1;
      }
    }
    WholePrefix(findings);
  }

  method Summarize(nodes: seq<Node>, findings: seq<Finding>) returns (s: Summary)
    ensures Summarises(s, nodes, findings)
  {
    var errors, warnings, infos := CountSeverities(findings);
    var capacity, allocatable, requested, known := 0, 0, 0, |nodes| > 0;
    for i := 0 to |nodes|
      invariant capacity == Sum(nodes[..i], CAPACITY)
      invariant allocatable == Sum(nodes[..i], ALLOCATABLE)
      invariant requested == Sum(nodes[..i], REQUESTED)
      invariant known <==> nodes != [] && forall n :: n in nodes[..i] ==> n.requestedKnown
    {
      PrefixSnoc(nodes, i);
      capacity := capacity + nodes[i].capacity;
      allocatable := allocatable + nodes[i].allocatable;
      requested := requested + nodes[i].requested;
      if !nodes[i].requestedKnown { known := false; }
    }
    WholePrefix(nodes);
    s := Summary(|nodes|, errors, warnings, infos, capacity, allocatable, requested, known);
  }

  method NodesChecked(input: Input, node: string) returns (checked: seq<Node>)
    ensures checked == Checked(input, node)
    ensures node == "" ==> checked == input.nodes + input.hinted
    ensures forall n :: n in checked <==> (n in input.nodes || n in input.hinted) && (node == "" || n.name == node)
  {
    FilterMembers(input.nodes + input.hinted, Named(node));
    var all := input.nodes + input.hinted;
    if node == "" { return all; }
    checked := [];
    for i := 0 to |all|
      invariant checked == Filter(all[..i], Named(node))
    {
      PrefixSnoc(all, i);
      FilterSnoc(all[..i], all[i], Named(node));
      if all[i].name == node { checked := checked + [all[i]]; }
    }
    WholePrefix(all);
  }

  /** The findings of one rule that survive --node. */
  method EvaluateRule(rule: Rule, input: Input, node: string) returns (kept: seq<Finding>)
    requires rule.Rule?
    ensures kept == Filter(AllDocumented(rule.evaluate(input)), Keep(node))
  {
    var found := rule.evaluate(input);
    kept := [];
    for i := 0 to |found|
      invariant kept == Filter(AllDocumented(found[..i]), Keep(node))
    {
      PrefixSnoc(found, i);
      var f := found[i];
      if f.docs == "" { f := f.(docs := CatalogPath(f.code)); }
      FilterSnoc(AllDocumented(found[..i]), f, Keep(node));
      if !Keep(node)(f) { continue; }
      kept := kept + [f];
    }
    WholePrefix(found);
  }

  method Run(rules: seq<Rule>, input: Input, node: string, inputErr: Err) returns (outcome: Outcome)
    ensures outcome.DidNotHappen? <==> !AllPartial(Leaves(inputErr))
    ensures outcome.MaybeUnreadNode? <==> AllPartial(Leaves(inputErr)) && node != "" && Checked(input, node) == [] && Leaves(inputErr) != []
    ensures outcome.UnknownNode? <==> node != "" && Checked(input, node) == [] && Leaves(inputErr) == []
    ensures outcome.Reported? ==>
      && outcome.report.findings == Sort(Filter(Concluded(rules, input), Keep(node)), BY_NODE_THEN_CODE)
      && outcome.report.partial == (Leaves(inputErr) != [])
      && outcome.report.unreachable == Sort(Missed(Leaves(inputErr)), BY_RESOURCE)
      && Summarises(outcome.report.summary, Checked(input, node), outcome.report.findings)
  {
    var ok, unreachable := ClassifyInputError(inputErr);
    if !ok { return DidNotHappen; }
    var checked := NodesChecked(input, node);
    if node != "" && |checked| == 0 {
      return if |unreachable| > 0 then MaybeUnreadNode else UnknownNode;
    }
    var found: seq<Finding> := [];
    for i := 0 to |rules|
      invariant found == Filter(Concluded(rules[..i], input), Keep(node))
    {
      PrefixSnoc(rules, i);
      if rules[i].NoRule? || !rules[i].applies(input.operatorVersion) { continue; }
      FilterAppends(Concluded(rules[..i], input), AllDocumented(rules[i].evaluate(input)), Keep(node));
      var kept := EvaluateRule(rules[i], input, node);
      found := found + kept;
    }
    WholePrefix(rules);
    var sorted := new Finding[|found|](i requires 0 <= i < |found| => found[i]);
    assert sorted[..] == found;
    SortFindings(sorted);
    var summary := Summarize(checked, sorted[..]);
    outcome := Reported(Report(sorted[..], |unreachable| > 0, unreachable, summary));
  }

  lemma {:induction false} DocumentedMembers(fs: seq<Finding>)
    ensures forall f :: f in AllDocumented(fs) <==> exists g :: g in fs && f == Documented(g)
  {
    if fs != [] {
      var init, last := fs[..|fs| - 1], fs[|fs| - 1];
      DocumentedMembers(init);
      assert fs == init + [last];
    }
  }

  /** A finding with the link to its code, unless it has one or no code. */
  function Linked(g: Finding): Finding {
    if g.docs != "" || g.code == "" then g else g.(docs := "docs/findings/" + g.code + ".md")
  }

  /** f is what a rule that applies finds in the whole input, linked. */
  ghost predicate FoundBy(f: Finding, rule: Rule, input: Input) {
    rule.Rule? && rule.applies(input.operatorVersion) && exists g :: g in rule.evaluate(input) && f == Linked(g)
  }

  lemma FoundByLast(rule: Rule, input: Input)
    requires rule.Rule? && rule.applies(input.operatorVersion)
    ensures forall f :: f in AllDocumented(rule.evaluate(input)) <==> FoundBy(f, rule, input)
  {
    DocumentedMembers(rule.evaluate(input));
    forall g: Finding ensures Documented(g) == Linked(g) {}
  }

  lemma {:induction false} ConcludedMembers(rules: seq<Rule>, input: Input)
    ensures forall f :: f in Concluded(rules, input) <==> exists rule :: rule in rules && FoundBy(f, rule, input)
  {
    if rules != [] {
      var init, last := rules[..|rules| - 1], rules[|rules| - 1];
      ConcludedMembers(init, input);
      assert rules == init + [last];
      if last.Rule? && last.applies(input.operatorVersion) { FoundByLast(last, input); }
      forall f ensures (exists rule :: rule in rules && FoundBy(f, rule, input)) <==>
        FoundBy(f, last, input) || exists rule :: rule in init && FoundBy(f, rule, input)
      {
        if rule :| rule in init && FoundBy(f, rule, input) { assert rule in rules; }
      }
    }
  }

  /** Under --node a report carries what the rules find of the node or of the cluster. */
  lemma KeptFindings(rules: seq<Rule>, input: Input, node: string)
    ensures forall f :: f in Sort(Filter(Concluded(rules, input), Keep(node)), BY_NODE_THEN_CODE) <==>
      (node == "" || f.node == "" || f.node == node) && exists rule :: rule in rules && FoundBy(f, rule, input)
  {
    ConcludedMembers(rules, input);
    FilterMembers(Concluded(rules, input), Keep(node));
    SortMembers(Filter(Concluded(rules, input), Keep(node)), BY_NODE_THEN_CODE);
  }

  /** One checked node more adds its GPUs; one unknown node makes the requests unknown. */
  lemma SummaryOfOneMore(s: Summary, t: Summary, nodes: seq<Node>, n: Node, findings: seq<Finding>)
    requires Summarises(s, nodes, findings) && Summarises(t, nodes + [n], findings)
    ensures t.nodesChecked == s.nodesChecked + 1
    ensures t.capacity == s.capacity + n.capacity && t.allocatable == s.allocatable + n.allocatable && t.requested == s.requested + n.requested
    ensures t.requestedKnown <==> n.requestedKnown && (s.requestedKnown || nodes == [])
  {
    assert (nodes + [n])[..|nodes|] == nodes;
    assert forall m :: m in nodes + [n] <==> m in nodes || m == n;
  }

  lemma SummaryOfNone(s: Summary, findings: seq<Finding>)
    requires Summarises(s, [], findings)
    ensures s.nodesChecked == 0 && s.capacity == s.allocatable == s.requested == 0 && !s.requestedKnown
  {}

  /** One finding more counts under its severity and under no other. */
  lemma SummaryOfFindings(s: Summary, t: Summary, nodes: seq<Node>, findings: seq<Finding>, f: Finding)
    requires Summarises(s, nodes, findings) && Summarises(t, nodes, findings + [f])
    ensures t.errors == s.errors + (if f.severity == "error" then 1 else 0)
    ensures t.warnings == s.warnings + (if f.severity == "warning" then 1 else 0)
    ensures t.infos == s.infos + (if f.severity == "info" then 1 else 0)
  {
    FilterSnoc(findings, f, WithSeverity("error"));
    FilterSnoc(findings, f, WithSeverity("warning"));
    FilterSnoc(findings, f, WithSeverity("info"));
  }

  /** --node commutes with the run: the findings of the filtered report are those of
      the whole report that are about the node or about the cluster, in its order. */
  lemma FilterCommutesWithRun(rules: seq<Rule>, input: Input, node: string)
    ensures Sort(Filter(Concluded(rules, input), Keep(node)), BY_NODE_THEN_CODE) ==
      Filter(Sort(Filter(Concluded(rules, input), Keep("")), BY_NODE_THEN_CODE), Keep(node))
  {
    var all := Concluded(rules, input);
    KeepEverything(all);
    FindingOrderIsTotalPreorder();
    SortCommutesWithFilter(all, BY_NODE_THEN_CODE, Keep(node));
  }

  lemma {:induction false} KeepEverything(fs: seq<Finding>)
    ensures Filter(fs, Keep("")) == fs
  {
    if fs != [] { KeepEverything(fs[..|fs| - 1]); }
  }

  /** The exit status of the command: 4 when something was read that failed outright,
      else 2 or 3 for a node nobody saw, else 1 on a finding at the threshold, else 3
      when something could not be read, else 0. */
  method HealthExit(rules: seq<Rule>, input: Input, node: string, inputErr: Err, failOn: string) returns (code: int)
    ensures !AllPartial(Leaves(inputErr)) ==> code == EXIT_ERROR
    ensures AllPartial(Leaves(inputErr)) && node != "" && Checked(input, node) == [] ==>
      code == if Leaves(inputErr) != [] then EXIT_PARTIAL else EXIT_USAGE
    ensures AllPartial(Leaves(inputErr)) && (node == "" || Checked(input, node) != []) ==>
      code == if exists f :: f in Concluded(rules, input) && Keep(node)(f) && Reaches(f, failOn) then EXIT_FINDINGS
              else if Leaves(inputErr) != [] then ExitCodeFor(inputErr)
              else EXIT_OK
    ensures (exists path :: HardAt(inputErr, path)) ==> code == EXIT_ERROR
    ensures PlainWrappers(inputErr) ==> (code == EXIT_ERROR <==> exists path :: HardAt(inputErr, path))
    ensures PlainWrappers(inputErr) && AllPartial(Leaves(inputErr)) && Leaves(inputErr) != [] ==>
      code in {EXIT_PARTIAL, EXIT_FINDINGS}
  {
    HardLeafIsReached(inputErr);
    var outcome := Run(rules, input, node, inputErr);
    match outcome {
      case DidNotHappen => return EXIT_ERROR;
      case UnknownNode => return EXIT_USAGE;
      case MaybeUnreadNode => return EXIT_PARTIAL;
      case Reported(report) =>
        FilterMembers(Concluded(rules, input), Keep(node));
        SortMembers(Filter(Concluded(rules, input), Keep(node)), BY_NODE_THEN_CODE);
        code := ExitCode(report.findings, report.partial, failOn);
        if code == EXIT_PARTIAL {
          if PlainWrappers(inputErr) { PartialReadsExitPartial(inputErr); }
          code := ExitCodeFor(inputErr);
        }
    }
  }
}
