/**
 pkg/topology/fit.go, fits: whether equal pods can be placed on nodes with these
 free GPUs.
 */
module Placement {
  import opened Prefixes
  import opened Sorting

  // ----- placements -----

  function Load(assign: seq<nat>, node: nat): nat { multiset(assign)[node] }

  /** Every pod has a node, and no node that takes pods is asked for more GPUs than
      it has free. */
  ghost predicate Places(assign: seq<nat>, free: seq<int>, pods: int, size: int) {
    && |assign| == pods
    && (forall k :: 0 <= k < |assign| ==> assign[k] < |free|)
    && (forall j :: 0 <= j < |free| && Load(assign, j) > 0 ==> Load(assign, j) * size <= free[j])
  }

  ghost predicate CanPlace(free: seq<int>, pods: int, size: int) {
    exists assign :: Places(assign, free, pods, size)
  }

  /** How many pods one node takes. */
  function Capacity(available: int, size: int): (pods: nat)
    requires size > 0
  {
    if available < 0 then 0 else available / size
  }

  function Room(free: seq<int>, size: int): nat
    requires size > 0
  {
    if free == [] then 0 else Room(free[..|free| - 1], size) + Capacity(free[|free| - 1], size)
  }

  lemma RoomSnoc(free: seq<int>, a: int, size: int)
    requires size > 0
    ensures Room(free + [a], size) == Room(free, size) + Capacity(a, size)
  {
    assert (free + [a])[..|free|] == free;
  }

  lemma CapacityIsTight(load: nat, available: int, size: int)
    requires size > 0
    ensures load > 0 ==> (load * size <= available <==> load <= Capacity(available, size))
  {
    if load > 0 && available >= 0 {
      var q := available / size;
      assert available == q * size + available % size;
      if load <= q {
        assert load * size <= q * size;
      } else {
        assert (q + 1) * size <= load * size;
      }
    } else if load > 0 {
      assert load * size > 0;
    }
  }

  lemma LoadSnoc(assign: seq<nat>, x: nat)
    ensures forall j: nat :: Load(assign + [x], j) == Load(assign, j) + (if j == x then 1 else 0)
  {}

  /** The pods of an assignment that are not on the given node, and how many are. */
  lemma {:induction false} WithoutNode(assign: seq<nat>, node: nat) returns (rest: seq<nat>)
    ensures |rest| + Load(assign, node) == |assign|
    ensures forall x :: x in rest ==> x in assign && x != node
    ensures forall j: nat :: j != node ==> Load(rest, j) == Load(assign, j)
  {
    if assign == [] {
      rest := [];
    } else {
      var init, last := assign[..|assign| - 1], assign[|assign| - 1];
      assert assign == init + [last];
      LoadSnoc(init, last);
      var before := WithoutNode(init, node);
      LoadSnoc(before, last);
      rest := if last != node then before + [last] else before;
    }
  }

  /** No assignment places more pods than there is room for. */
  lemma {:induction false} PlacedWithinRoom(assign: seq<nat>, free: seq<int>, pods: int, size: int)
    requires size > 0 && Places(assign, free, pods, size)
    ensures pods <= Room(free, size)
    decreases |free|
  {
    if free == [] {
      assert assign == [];
    } else {
      var n := |free| - 1;
      var rest := WithoutNode(assign, n);
      forall k | 0 <= k < |rest| ensures rest[k] < n {
        assert rest[k] in rest;
        var i :| 0 <= i < |assign| && assign[i] == rest[k];
      }
      forall j | 0 <= j < n && Load(rest, j) > 0 ensures Load(rest, j) * size <= free[..n][j] {
        assert Load(assign, j) * size <= free[j];
      }
      PlacedWithinRoom(rest, free[..n], |rest|, size);
      CapacityIsTight(Load(assign, n), free[n], size);
    }
  }

  lemma CopiesLoad(node: nat, count: nat) returns (copies: seq<nat>)
    ensures |copies| == count && Load(copies, node) == count
    ensures forall x :: x in copies ==> x == node
    ensures forall j: nat :: j != node ==> Load(copies, j) == 0
  {
    copies := [];
    for i := 0 to count
      invariant |copies| == i && Load(copies, node) == i
      invariant forall x :: x in copies ==> x == node
      invariant forall j: nat :: j != node ==> Load(copies, j) == 0
    {
      LoadSnoc(copies, node);
      copies := copies + [node];
    }
  }

  /** Filling nodes one after the other places as many pods as there is room for. */
  lemma {:induction false} RoomIsFillable(free: seq<int>, pods: nat, size: int) returns (assign: seq<nat>)
    requires size > 0 && pods <= Room(free, size)
    ensures Places(assign, free, pods, size)
    decreases |free|
  {
    if free == [] { return []; }
    var n := |free| - 1;
    var here := if pods <= Capacity(free[n], size) then pods else Capacity(free[n], size);
    var rest := RoomIsFillable(free[..n], pods - here, size);
    var copies := CopiesLoad(n, here);
    assign := rest + copies;
    assert Load(rest, n) == 0 by { assert forall k :: 0 <= k < |rest| ==> rest[k] < n; }
    forall k | 0 <= k < |assign| ensures assign[k] < |free| { assert k >= |rest| ==> copies[k - |rest|] in copies; }
    forall j | 0 <= j < |free| && Load(assign, j) > 0 ensures Load(assign, j) * size <= free[j] {
      assert Load(assign, j) == Load(rest, j) + Load(copies, j);
      if j == n { CapacityIsTight(here, free[n], size); } else { assert free[..n][j] == free[j]; }
    }
  }

  lemma CanPlaceIsRoom(free: seq<int>, pods: int, size: int)
    requires size > 0 && pods > 0
    ensures CanPlace(free, pods, size) <==> pods <= Room(free, size)
  {
    if CanPlace(free, pods, size) {
      var assign :| Places(assign, free, pods, size);
      PlacedWithinRoom(assign, free, pods, size);
    }
    if pods <= Room(free, size) {
      var assign := RoomIsFillable(free, pods, size);
    }
  }

  // ----- the greedy pass -----

  /** Integer division as Go has it, rounding toward zero. */
  function Quotient(a: int, b: int): int
    requires b > 0
  {
    if a >= 0 then a / b else -(-a / b)
  }

  const LARGEST_FIRST: (int, int) -> bool := (a: int, b: int) => a >= b

  lemma {:induction false} InsertKeepsRoom(s: seq<int>, x: int, size: int)
    requires size > 0
    ensures Room(Insert(s, x, LARGEST_FIRST), size) == Room(s, size) + Capacity(x, size)
  {
    if s == [] || LARGEST_FIRST(s[|s| - 1], x) {
      RoomSnoc(s, x, size);
    } else {
      InsertKeepsRoom(s[..|s| - 1], x, size);
      RoomSnoc(Insert(s[..|s| - 1], x, LARGEST_FIRST), s[|s| - 1], size);
    }
  }

  lemma {:induction false} SortKeepsRoom(s: seq<int>, size: int)
    requires size > 0
    ensures Room(Sort(s, LARGEST_FIRST), size) == Room(s, size)
  {
    if s != [] {
      SortKeepsRoom(s[..|s| - 1], size);
      InsertKeepsRoom(Sort(s[..|s| - 1], LARGEST_FIRST), s[|s| - 1], size);
    }
  }

  lemma {:induction false} RoomGrows(free: seq<int>, i: nat, size: int)
    requires size > 0 && i <= |free|
    ensures Room(free[..i], size) <= Room(free, size)
  {
    if i < |free| {
      var init := free[..|free| - 1];
      RoomGrows(init, i, size);
      assert init[..i] == free[..i];
    } else {
      assert free[..i] == free;
    }
  }

  lemma LargestFirst(free: seq<int>, size: int)
    requires size > 0
    ensures forall i, j :: 0 <= i < j < |Sort(free, LARGEST_FIRST)| ==>
      Sort(free, LARGEST_FIRST)[i] >= Sort(free, LARGEST_FIRST)[j]
    ensures Room(Sort(free, LARGEST_FIRST), size) == Room(free, size)
  {
    assert TotalPreorder(LARGEST_FIRST);
    SortOrders(free, LARGEST_FIRST);
    SortKeepsRoom(free, size);
    var s := Sort(free, LARGEST_FIRST);
    forall i, j | 0 <= i < j < |s| ensures s[i] >= s[j] { assert LARGEST_FIRST(s[i], s[j]); }
  }

  lemma QuotientWithinCapacity(a: int, size: int)
    requires size > 0
    ensures Quotient(a, size) <= Capacity(a, size)
    ensures a >= 0 ==> Quotient(a, size) == Capacity(a, size)
  {
    if a < 0 { assert -a / size >= 0; }
  }

  /** The greedy answer is exact: it is yes precisely when the pods can be placed. */
  method Fits(free: seq<int>, pods: int, size: int) returns (fits: bool)
    ensures fits <==> pods > 0 && size > 0 && CanPlace(free, pods, size)
  {
    if pods <= 0 || size <= 0 { return false; }
    CanPlaceIsRoom(free, pods, size);
    LargestFirst(free, size);
    var sorted := Sort(free, LARGEST_FIRST);
    var placed := 0;
    for i := 0 to |sorted|
      invariant placed <= Room(sorted[..i], size) < pods
      invariant i == 0 || sorted[i - 1] >= 0 ==> placed == Room(sorted[..i], size)
    {
      PrefixSnoc(sorted, i);
      RoomSnoc(sorted[..i], sorted[i], size);
      QuotientWithinCapacity(sorted[i], size);
      placed := placed + Quotient(sorted[i], size);
      if placed >= pods {
        RoomGrows(sorted, i + 1, size);
        return true;
      }
    }
    WholePrefix(sorted);
    return false;
  }

  // ----- without the sort -----

  function InOrder(free: seq<int>, size: int): int
    requires size > 0
  {
    if free == [] then 0 else InOrder(free[..|free| - 1], size) + Quotient(free[|free| - 1], size)
  }

  /** The pass taken in the order given, early exit included. */
  ghost predicate FitsUnsorted(free: seq<int>, pods: int, size: int)
    requires size > 0
  {
    exists i :: 0 < i <= |free| && InOrder(free[..i], size) >= pods
  }

  lemma {:induction false} InOrderIsRoom(free: seq<int>, size: int)
    requires size > 0 && forall k :: 0 <= k < |free| ==> free[k] >= 0
    ensures InOrder(free, size) == Room(free, size)
  {
    if free != [] { InOrderIsRoom(free[..|free| - 1], size); }
  }

  /** A negative entry taken first is subtracted from what the others hold. */
  lemma NegativeNeedsTheSort()
    ensures CanPlace([-4, 4], 4, 1) && !FitsUnsorted([-4, 4], 4, 1)
  {
    assert Load([1, 1, 1, 1], 0) == 0 && Load([1, 1, 1, 1], 1) == 4;
    assert Places([1, 1, 1, 1], [-4, 4], 4, 1);
    var free := [-4, 4];
    assert free[..1] == [-4] && free[..2] == free && free[..1][..0] == [];
    assert InOrder(free[..1], 1) == -4 && InOrder(free[..2], 1) == 0;
  }

  /** Over free GPUs that are not negative, as freeOn makes them, neither the sort
      nor the early exit changes the answer. */
  lemma SortDoesNotShow(free: seq<int>, pods: int, size: int)
    requires size > 0 && pods > 0 && forall k :: 0 <= k < |free| ==> free[k] >= 0
    ensures FitsUnsorted(free, pods, size) <==> CanPlace(free, pods, size)
  {
    CanPlaceIsRoom(free, pods, size);
    forall i | 0 < i <= |free| && InOrder(free[..i], size) >= pods ensures Room(free, size) >= pods {
      InOrderIsRoom(free[..i], size);
      RoomGrows(free, i, size);
    }
    InOrderIsRoom(free, size);
    WholePrefix(free);
  }
}
