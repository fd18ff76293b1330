/** pkg/output: findings, their order, their severities and the exit codes. */
module Findings {
  import opened Prefixes
  import opened Sorting

  datatype Finding = Finding(code: string, severity: string, node: string, docs: string, rest: string)

  // ----- pkg/output/sort.go -----

  const BY_NODE_THEN_CODE: (Finding, Finding) -> bool :=
    (a: Finding, b: Finding) => if a.node != b.node then StringLe(a.node, b.node) else StringLe(a.code, b.code)

  lemma FindingOrderIsTotalPreorder()
    ensures TotalPreorder(BY_NODE_THEN_CODE)
  {
    forall a, b: Finding ensures BY_NODE_THEN_CODE(a, b) || BY_NODE_THEN_CODE(b, a) {
      StringLeTotal(a.node, b.node);
      StringLeTotal(a.code, b.code);
    }
    forall a, b, c: Finding | BY_NODE_THEN_CODE(a, b) && BY_NODE_THEN_CODE(b, c) ensures BY_NODE_THEN_CODE(a, c) {
      if a.node == b.node == c.node {
        StringLeTransitive(a.code, b.code, c.code);
      } else {
        StringLeTotal(a.node, a.node);
        StringLeTotal(b.node, b.node);
        StringLeTransitive(a.node, b.node, c.node);
        if a.node == c.node { StringLeAntisymmetric(a.node, b.node); }
      }
    }
  }

  /** Sorts the findings in place: by node, then by code, ties in their old order. */
  method SortFindings(a: array<Finding>)
    modifies a
    ensures a[..] == Sort(old(a[..]), BY_NODE_THEN_CODE)
  {
    SortInPlace(a, BY_NODE_THEN_CODE);
  }

  /** Sorted findings run by node, and those of one node by code, byte by byte. */
  lemma FindingsInOrder(fs: seq<Finding>, i: nat, j: nat)
    requires i < j < |Sort(fs, BY_NODE_THEN_CODE)|
    ensures var a, b := Sort(fs, BY_NODE_THEN_CODE)[i], Sort(fs, BY_NODE_THEN_CODE)[j];
      StringLe(a.node, b.node) && (a.node == b.node ==> StringLe(a.code, b.code))
  {
    FindingOrderIsTotalPreorder();
    SortOrders(fs, BY_NODE_THEN_CODE);
    var a, b := Sort(fs, BY_NODE_THEN_CODE)[i], Sort(fs, BY_NODE_THEN_CODE)[j];
    assert BY_NODE_THEN_CODE(a, b);
    StringLeTotal(a.node, a.node);
  }

  // ----- pkg/output/exitcode.go -----

  const EXIT_OK := 0
  const EXIT_FINDINGS := 1
  const EXIT_USAGE := 2
  const EXIT_PARTIAL := 3
  const EXIT_ERROR := 4

  /** The exit codes, as scripts test them. */
  lemma CodesInNumbers()
    ensures EXIT_OK == 0 && EXIT_FINDINGS == 1 && EXIT_USAGE == 2 && EXIT_PARTIAL == 3 && EXIT_ERROR == 4
  {}

  const SEVERITIES: seq<string> := ["info", "warning", "error"]

  /** The place of a severity among the known ones, from 1; 0 when it is none. */
  function Rank(severity: string): (r: nat)
    ensures r <= 3
    ensures r > 0 <==> severity in SEVERITIES
    ensures r > 0 ==> SEVERITIES[r - 1] == severity
  {
    if severity == SEVERITIES[0] then 1
    else if severity == SEVERITIES[1] then 2
    else if severity == SEVERITIES[2] then 3
    else 0
  }

  function Threshold(failOn: string): string { if failOn == "" then "error" else failOn }

  predicate Reaches(f: Finding, failOn: string) { Rank(f.severity) >= Rank(Threshold(failOn)) }

  /** Which findings fail a run, in the words of --fail-on: errors always, warnings from
      "warning" down, observations at "info"; a severity nobody knows at no known
      threshold. */
  lemma ReachesInWords(f: Finding, failOn: string)
    ensures failOn == "" || failOn == "error" ==> (Reaches(f, failOn) <==> f.severity == "error")
    ensures failOn == "warning" ==> (Reaches(f, failOn) <==> f.severity == "warning" || f.severity == "error")
    ensures failOn == "info" ==> (Reaches(f, failOn) <==> f.severity == "info" || f.severity == "warning" || f.severity == "error")
    ensures failOn != "" && failOn != "error" && failOn != "warning" && failOn != "info" ==> Reaches(f, failOn)
  {}

  method ExitCode(findings: seq<Finding>, partial: bool, failOn: string) returns (code: int)
    ensures code == EXIT_FINDINGS <==> exists f :: f in findings && Reaches(f, failOn)
    ensures code == EXIT_PARTIAL <==> partial && forall f :: f in findings ==> !Reaches(f, failOn)
    ensures code == EXIT_OK <==> !partial && forall f :: f in findings ==> !Reaches(f, failOn)
    ensures code in {EXIT_FINDINGS, EXIT_PARTIAL, EXIT_OK}
  {
    for i := 0 to |findings|
      invariant forall f :: f in findings[..i] ==> !Reaches(f, failOn)
    {
      PrefixSnoc(findings, i);
      assert findings[i] in findings;
      if Rank(findings[i].severity) >= Rank(Threshold(failOn)) {
        assert Reaches(findings[i], failOn);
        return EXIT_FINDINGS;
      }
    }
    WholePrefix(findings);
    return if partial then EXIT_PARTIAL else EXIT_OK;
  }

  /** A stricter threshold never takes a run out of "found something". */
  lemma LowerThresholdKeepsFindings(findings: seq<Finding>, failOn: string, stricter: string)
    requires Rank(Threshold(stricter)) <= Rank(Threshold(failOn))
    requires exists f :: f in findings && Reaches(f, failOn)
    ensures exists f :: f in findings && Reaches(f, stricter)
  {
    var f :| f in findings && Reaches(f, failOn);
    assert Reaches(f, stricter);
  }
}
