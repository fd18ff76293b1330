/** pkg/topology/report.go, LimitItems: --limit over the groups of a report. */
module Limit {
  import opened Prefixes
  import opened Topology
  import opened Levels
  import opened Wrappers

  /** Every group of a report, level after level. */
  function Flat(levels: seq<Level>): seq<Group> {
    if levels == [] then [] else Flat(levels[..|levels| - 1]) + levels[|levels| - 1].groups
  }

  function NonEmpty(levels: seq<Level>): seq<Level> {
    if levels == [] then []
    else if levels[|levels| - 1].groups == [] then NonEmpty(levels[..|levels| - 1])
    else NonEmpty(levels[..|levels| - 1]) + [levels[|levels| - 1]]
  }

  predicate SameHeader(a: Level, b: Level) { a.name == b.name && a.tag == b.tag && a.source == b.source }

  /** The levels carry exactly the first n groups, as the first of the levels that
      have any, in their order: all but the last whole, and none empty. */
  ghost predicate FirstGroups(kept: seq<Level>, levels: seq<Level>, n: nat) {
    && n <= |Flat(levels)| && Flat(kept) == Flat(levels)[..n]
    && (forall l :: l in kept ==> l.groups != [])
    && |kept| <= |NonEmpty(levels)|
    && (forall i :: 0 <= i < |kept| ==> SameHeader(kept[i], NonEmpty(levels)[i]) && kept[i].groups <= NonEmpty(levels)[i].groups)
    && (forall i :: 0 <= i < |kept| - 1 ==> kept[i] == NonEmpty(levels)[i])
  }

  lemma FlatSnoc(levels: seq<Level>, l: Level)
    ensures Flat(levels + [l]) == Flat(levels) + l.groups
  {
    assert (levels + [l])[..|levels|] == levels;
  }

  lemma {:induction false} FlatAppends(a: seq<Level>, b: seq<Level>)
    ensures Flat(a + b) == Flat(a) + Flat(b)
  {
    if b == [] {
      assert a + b == a;
    } else {
      var init, last := b[..|b| - 1], b[|b| - 1];
      assert a + b == (a + init) + [last];
      FlatSnoc(a + init, last);
      FlatAppends(a, init);
      assert Flat(a) + (Flat(init) + last.groups) == Flat(a) + Flat(init) + last.groups;
    }
  }

  lemma {:induction false} NonEmptyAppends(a: seq<Level>, b: seq<Level>)
    ensures NonEmpty(a + b) == NonEmpty(a) + NonEmpty(b)
  {
    if b == [] {
      assert a + b == a;
    } else {
      NonEmptyAppends(a, b[..|b| - 1]);
      assert (a + b)[..|a + b| - 1] == a + b[..|b| - 1];
    }
  }

  lemma {:induction false} NonEmptyFacts(levels: seq<Level>)
    ensures Flat(NonEmpty(levels)) == Flat(levels)
    ensures forall l :: l in NonEmpty(levels) ==> l.groups != []
  {
    if levels != [] {
      NonEmptyFacts(levels[..|levels| - 1]);
      FlatAppends(NonEmpty(levels[..|levels| - 1]), [levels[|levels| - 1]]);
      assert Flat([levels[|levels| - 1]]) == levels[|levels| - 1].groups;
    }
  }

  /** The last level kept may be cut; everything before it is as it was. */
  lemma CutHere(levels: seq<Level>, i: nat, left: nat, n: nat)
    requires i < |levels| && 0 < left <= |levels[i].groups|
    requires n == |Flat(levels[..i])| + left
    ensures FirstGroups(NonEmpty(levels[..i]) + [levels[i].(groups := levels[i].groups[..left])], levels, n)
  {
    var before, cut := NonEmpty(levels[..i]), levels[i].(groups := levels[i].groups[..left]);
    assert levels == levels[..i] + [levels[i]] + levels[i + 1..];
    ThreeParts(levels, levels[..i], levels[i], levels[i + 1..]);
    NonEmptyFacts(levels[..i]);
    FlatSnoc(before, cut);
    CutFlat(Flat(levels[..i]), levels[i].groups, Flat(levels[i + 1..]), left);
    CutHeaders(before, levels[i], cut, NonEmpty(levels[i + 1..]));
  }

  lemma ThreeParts(levels: seq<Level>, before: seq<Level>, l: Level, behind: seq<Level>)
    requires levels == before + [l] + behind && l.groups != []
    ensures Flat(levels) == Flat(before) + l.groups + Flat(behind)
    ensures NonEmpty(levels) == NonEmpty(before) + [l] + NonEmpty(behind)
  {
    FlatAppends(before + [l], behind);
    FlatSnoc(before, l);
    NonEmptyAppends(before + [l], behind);
    assert (before + [l])[..|before|] == before;
  }

  lemma CutFlat(a: seq<Group>, b: seq<Group>, c: seq<Group>, left: nat)
    requires left <= |b|
    ensures a + b[..left] == (a + b + c)[..|a| + left]
  {}

  lemma CutHeaders(before: seq<Level>, l: Level, cut: Level, behind: seq<Level>)
    requires SameHeader(cut, l) && cut.groups <= l.groups
    ensures var kept, all := before + [cut], before + [l] + behind;
      && |kept| <= |all|
      && (forall i :: 0 <= i < |kept| ==> SameHeader(kept[i], all[i]) && kept[i].groups <= all[i].groups)
      && (forall i :: 0 <= i < |kept| - 1 ==> kept[i] == all[i])
  {}

  lemma OneLevelMore(levels: seq<Level>, i: nat)
    requires i < |levels|
    ensures |Flat(levels[..i + 1])| == |Flat(levels[..i])| + |levels[i].groups|
    ensures NonEmpty(levels[..i + 1]) == NonEmpty(levels[..i]) + (if levels[i].groups == [] then [] else [levels[i]])
  {
    PrefixSnoc(levels, i);
  }

  function Cut(level: Level, left: nat): Level {
    if |level.groups| > left then level.(groups := level.groups[..left]) else level
  }

  /** While groups are left to take, every level so far was taken whole. */
  ghost predicate Progress(kept: seq<Level>, left: nat, levels: seq<Level>, i: nat, n: nat)
    requires i <= |levels|
  {
    if left > 0 then kept == NonEmpty(levels[..i]) && n == |Flat(levels[..i])| + left
    else FirstGroups(kept, levels, n)
  }

  lemma TakeLevel(kept: seq<Level>, left: nat, levels: seq<Level>, i: nat, n: nat)
    requires i < |levels| && left > 0 && Progress(kept, left, levels, i, n)
    ensures var level := Cut(levels[i], left);
      Progress(if level.groups == [] then kept else kept + [level], left - |level.groups|, levels, i + 1, n)
  {
    OneLevelMore(levels, i);
    if |levels[i].groups| >= left {
      CutHere(levels, i, left, n);
      assert levels[i].(groups := levels[i].groups[..left]) == Cut(levels[i], left);
    }
  }

  class TopologyReport {
    var levels: seq<Level>
    var remaining: Option<int>

    /** A limit that cuts leaves the first n groups and the count of the rest; any
        other limit leaves the report alone. */
    method LimitItems(n: int) returns (total: nat)
      modifies this
      ensures total == |Flat(old(levels))|
      ensures n <= 0 || total <= n ==> levels == old(levels) && remaining == old(remaining)
      ensures 0 < n < total ==> FirstGroups(levels, old(levels), n) && remaining == Some(total - n)
    {
      var all := levels;
      total := 0;
      for i := 0 to |all|
        invariant total == |Flat(all[..i])| && levels == all && remaining == old(remaining)
      {
        PrefixSnoc(all, i);
        total := total + |all[i].groups|;
      }
      WholePrefix(all);
      if n <= 0 || total <= n { return; }
      var left := n;
      var kept: seq<Level> := [];
      var i := 0;
      while i < |all|
        invariant 0 <= i <= |all| && 0 <= left
        invariant Progress(kept, left, all, i, n)
      {
        if left <= 0 { break; }
        TakeLevel(kept, left, all, i, n);
        var level := Cut(all[i], left);
        i := i + 1;
        if |level.groups| == 0 { continue; }
        left := left - |level.groups|;
        kept := kept + [level];
      }
      WholePrefix(all);
      levels := kept;
      remaining := Some(total - n);
    }
  }

  /** Kept plus remaining is the total. */
  lemma NothingIsUncounted(kept: seq<Level>, levels: seq<Level>, n: nat, remaining: int)
    requires FirstGroups(kept, levels, n) && remaining == |Flat(levels)| - n
    ensures |Flat(kept)| + remaining == |Flat(levels)|
    ensures Flat(kept) <= Flat(levels)
  {}
}
