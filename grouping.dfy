/**
 * `DependencyGraph.group_by_parallelization`: cutting the sorted selectors into
 * execution groups. A new group starts when the next selector's ancestors meet the
 * current group's dependencies (its members and their ancestors); a group of more
 * than one element may run in parallel unless one of its elements is dangerous.
 */
module Grouping {
  import opened Models
  import opened GraphModel
  import opened TopoSort
  import opened Rules

  /** A batch of elements; `dependencies` are the members and all their ancestors. */
  datatype ExecutionGroup = ExecutionGroup(
    elements: seq<InteractiveElement>,
    groupId: int,
    dependencies: set<string>,
    canParallel: bool)

  /**
   * `any(_is_dangerous_element(e) for e in elements)`; `_is_dangerous_element` tests
   * the lower-cased text against the same keyword list as the dangerous rule.
   */
  predicate AnyDangerous(es: seq<InteractiveElement>) {
    exists i :: 0 <= i < |es| && IsDangerous(es[i])
  }

  /** The selectors of `sorted` that name nodes, in order (the loop skips the others). */
  function Known(g: NodeTable, sorted: seq<string>): (r: seq<string>)
    ensures forall x :: x in r <==> x in sorted && x in g.entries
  {
    if sorted == [] then []
    else
      var init := sorted[..|sorted| - 1];
      var last := sorted[|sorted| - 1];
      assert forall x :: x in sorted <==> x in init || x == last;
      Known(g, init) + (if last in g.entries then [last] else [])
  }

  function Flatten(ms: seq<seq<string>>): seq<string> {
    if ms == [] then [] else Flatten(ms[..|ms| - 1]) + ms[|ms| - 1]
  }

  /** The dependency set of a group: its members and all their ancestors. */
  function DepsOf(g: NodeTable, m: seq<string>): set<string> {
    if m == [] then {} else DepsOf(g, m[..|m| - 1]) + {m[|m| - 1]} + Ancestors(g, m[|m| - 1])
  }

  lemma {:induction false} DepsOfHoldsMembers(g: NodeTable, m: seq<string>)
    ensures forall x :: x in m ==> x in DepsOf(g, m)
  {
    if m != [] {
      DepsOfHoldsMembers(g, m[..|m| - 1]);
      assert forall x :: x in m ==> x in m[..|m| - 1] || x == m[|m| - 1];
    }
  }

  /** `[nodes[s]['element'] for s in group]`. */
  function ElementsOf(g: NodeTable, m: seq<string>): (es: seq<InteractiveElement>)
    requires forall x :: x in m ==> x in g.entries
    ensures |es| == |m|
  {
    seq(|m|, i requires 0 <= i < |m| => g.entries[m[i]].element)
  }

  /** No member's ancestors meet the dependencies of the members before it. */
  ghost predicate NoCutIn(g: NodeTable, m: seq<string>) {
    forall i :: 0 < i < |m| ==> Ancestors(g, m[i]) * DepsOf(g, m[..i]) == {}
  }

  ghost predicate NoCutInside(g: NodeTable, ms: seq<seq<string>>) {
    forall k :: 0 <= k < |ms| ==> NoCutIn(g, ms[k])
  }

  /** Every group after the first starts with a selector whose ancestors meet the previous group's dependencies. */
  ghost predicate CutsJustified(g: NodeTable, ms: seq<seq<string>>) {
    forall k :: 0 < k < |ms| && ms[k] != [] ==> Ancestors(g, ms[k][0]) * DepsOf(g, ms[k - 1]) != {}
  }

  /** Each group is non-empty and names only nodes. */
  ghost predicate GroupsOk(g: NodeTable, ms: seq<seq<string>>) {
    forall k :: 0 <= k < |ms| ==> ms[k] != [] && forall x :: x in ms[k] ==> x in g.entries
  }

  /** The group record for members `m` at index `k`, before the parallel flags are set. */
  ghost predicate RawGroup(g: NodeTable, grp: ExecutionGroup, m: seq<string>, k: int)
    requires forall x :: x in m ==> x in g.entries
  {
    grp == ExecutionGroup(ElementsOf(g, m), k, DepsOf(g, m), true)
  }

  lemma NoCutPush(g: NodeTable, m: seq<string>, s: string)
    requires NoCutIn(g, m)
    requires m == [] || Ancestors(g, s) * DepsOf(g, m) == {}
    ensures NoCutIn(g, m + [s])
  {
    forall i | 0 < i < |m| + 1
      ensures Ancestors(g, (m + [s])[i]) * DepsOf(g, (m + [s])[..i]) == {}
    {
      NoCutPushAt(g, m, s, i);
    }
  }

  lemma NoCutPushAt(g: NodeTable, m: seq<string>, s: string, i: nat)
    requires NoCutIn(g, m)
    requires m == [] || Ancestors(g, s) * DepsOf(g, m) == {}
    requires 0 < i < |m| + 1
    ensures Ancestors(g, (m + [s])[i]) * DepsOf(g, (m + [s])[..i]) == {}
  {
    if i < |m| {
      assert (m + [s])[..i] == m[..i] && (m + [s])[i] == m[i];
    } else {
      assert (m + [s])[..i] == m && (m + [s])[i] == s;
    }
  }

  lemma DepsPush(g: NodeTable, m: seq<string>, s: string)
    ensures DepsOf(g, m + [s]) == DepsOf(g, m) + {s} + Ancestors(g, s)
  {
    assert (m + [s])[..|m|] == m;
  }

  lemma KnownStep(g: NodeTable, sorted: seq<string>, i: nat)
    requires i < |sorted|
    ensures Known(g, sorted[..i + 1]) == Known(g, sorted[..i]) + (if sorted[i] in g.entries then [sorted[i]] else [])
  {
    assert sorted[..i + 1][..i] == sorted[..i];
  }

  lemma FlattenPush(ms: seq<seq<string>>, m: seq<string>)
    ensures Flatten(ms + [m]) == Flatten(ms) + m
  {
    assert (ms + [m])[..|ms|] == ms;
  }

  lemma SeenPush(a: seq<string>, c: seq<string>, s: string)
    ensures a + (c + [s]) == (a + c) + [s]
  {
  }

  /** What holds of the finished groups during the cut. */
  ghost predicate CutState(g: NodeTable, groups: seq<ExecutionGroup>, members: seq<seq<string>>) {
    && |groups| == |members| && GroupsOk(g, members)
    && (forall k :: 0 <= k < |members| ==> RawGroup(g, groups[k], members[k], k))
    && NoCutInside(g, members) && CutsJustified(g, members)
  }

  /** Closing the current group keeps the invariants of the finished groups. */
  lemma CloseGroup(g: NodeTable, groups: seq<ExecutionGroup>, members: seq<seq<string>>, current: seq<string>)
    requires CutState(g, groups, members)
    requires current != [] && (forall x :: x in current ==> x in g.entries) && NoCutIn(g, current)
    requires members != [] ==> Ancestors(g, current[0]) * DepsOf(g, members[|members| - 1]) != {}
    ensures CutState(g, groups + [ExecutionGroup(ElementsOf(g, current), |groups|, DepsOf(g, current), true)], members + [current])
  {
    var groups' := groups + [ExecutionGroup(ElementsOf(g, current), |groups|, DepsOf(g, current), true)];
    var members' := members + [current];
    forall k | 0 <= k < |members'|
      ensures members'[k] != [] && forall x :: x in members'[k] ==> x in g.entries
      ensures RawGroup(g, groups'[k], members'[k], k)
      ensures NoCutIn(g, members'[k])
    {
      CloseGroupAt(g, groups, members, current, k);
    }
    forall k | 0 < k < |members'| && members'[k] != []
      ensures Ancestors(g, members'[k][0]) * DepsOf(g, members'[k - 1]) != {}
    {
      CloseGroupCut(g, members, current, k);
    }
  }

  lemma CloseGroupAt(g: NodeTable, groups: seq<ExecutionGroup>, members: seq<seq<string>>, current: seq<string>, k: nat)
    requires CutState(g, groups, members)
    requires current != [] && (forall x :: x in current ==> x in g.entries) && NoCutIn(g, current)
    requires k < |members| + 1
    ensures (members + [current])[k] != [] && forall x :: x in (members + [current])[k] ==> x in g.entries
    ensures RawGroup(g, (groups + [ExecutionGroup(ElementsOf(g, current), |groups|, DepsOf(g, current), true)])[k], (members + [current])[k], k)
    ensures NoCutIn(g, (members + [current])[k])
  {
    if k < |members| {
      assert (members + [current])[k] == members[k];
      assert (groups + [ExecutionGroup(ElementsOf(g, current), |groups|, DepsOf(g, current), true)])[k] == groups[k];
    }
  }

  lemma CloseGroupCut(g: NodeTable, members: seq<seq<string>>, current: seq<string>, k: nat)
    requires CutsJustified(g, members)
    requires current != []
    requires members != [] ==> Ancestors(g, current[0]) * DepsOf(g, members[|members| - 1]) != {}
    requires 0 < k < |members| + 1
    ensures (members + [current])[k] != [] ==> Ancestors(g, (members + [current])[k][0]) * DepsOf(g, (members + [current])[k - 1]) != {}
  {
    if k < |members| {
      assert (members + [current])[k] == members[k] && (members + [current])[k - 1] == members[k - 1];
    } else {
      assert (members + [current])[k] == current && (members + [current])[k - 1] == members[|members| - 1];
    }
  }

  /** The group being filled: members name nodes, none depends on the ones before it, and it was cut from the last finished group for a reason. */
  ghost predicate OpenGroup(g: NodeTable, members: seq<seq<string>>, current: seq<string>) {
    && (forall x :: x in current ==> x in g.entries) && NoCutIn(g, current)
    && (current == [] ==> members == [])
    && (current != [] && members != [] ==> Ancestors(g, current[0]) * DepsOf(g, members[|members| - 1]) != {})
  }

  /** Appending a selector that does not depend on the open group keeps it open. */
  lemma Extend(g: NodeTable, members: seq<seq<string>>, current: seq<string>, s: string)
    requires s in g.entries
    requires (forall x :: x in current ==> x in g.entries) && NoCutIn(g, current)
    requires current != [] && members != [] ==> Ancestors(g, current[0]) * DepsOf(g, members[|members| - 1]) != {}
    requires current == [] ==> members == [] || Ancestors(g, s) * DepsOf(g, members[|members| - 1]) != {}
    requires current == [] || Ancestors(g, s) * DepsOf(g, current) == {}
    ensures OpenGroup(g, members, current + [s])
  {
    NoCutPush(g, current, s);
    if current != [] {
      assert (current + [s])[0] == current[0];
    }
  }

  /** The first loop of `group_by_parallelization`: the greedy cut of the known selectors. */
  method CutIntoGroups(g: NodeTable, sorted: seq<string>) returns (groups: seq<ExecutionGroup>, ghost members: seq<seq<string>>)
    ensures CutState(g, groups, members)
    ensures Flatten(members) == Known(g, sorted)
  {
    groups, members := [], [];
    var current: seq<string> := [];
    var deps: set<string> := {};
    for i := 0 to |sorted|
      invariant CutState(g, groups, members)
      invariant Flatten(members) + current == Known(g, sorted[..i])
      invariant OpenGroup(g, members, current)
      invariant deps == DepsOf(g, current)
    {
      var selector := sorted[i];
      KnownStep(g, sorted, i);
      if selector in g.entries {
        var ancestors := Ancestors(g, selector);
        if current != [] && ancestors * deps != {} {
          groups, members := Close(g, groups, members, current, deps);
          current, deps := [], {};
        }
        SeenPush(Flatten(members), current, selector);
        current, deps := Admit(g, members, current, deps, selector, ancestors);
      }
    }
    assert sorted[..|sorted|] == sorted;
    if current != [] {
      groups, members := Close(g, groups, members, current, deps);
    } else {
      assert Flatten(members) == Flatten(members) + current;
    }
  }

  /** `groups.append(...)` for the open group: it becomes the next finished group. */
  method Close(g: NodeTable, groups: seq<ExecutionGroup>, ghost members: seq<seq<string>>, current: seq<string>, deps: set<string>)
    returns (groups': seq<ExecutionGroup>, ghost members': seq<seq<string>>)
    requires CutState(g, groups, members) && OpenGroup(g, members, current)
    requires current != [] && deps == DepsOf(g, current)
    ensures CutState(g, groups', members')
    ensures Flatten(members') + [] == Flatten(members) + current
    ensures members' != [] && members'[|members'| - 1] == current
  {
    CloseGroup(g, groups, members, current);
    FlattenPush(members, current);
    groups' := groups + [ExecutionGroup(ElementsOf(g, current), |groups|, deps, true)];
    members' := members + [current];
  }

  /** `current_group.append(selector)`, with the selector's dependencies added to the group's. */
  method Admit(g: NodeTable, ghost members: seq<seq<string>>, current: seq<string>, deps: set<string>, selector: string, ancestors: set<string>)
    returns (current': seq<string>, deps': set<string>)
    requires selector in g.entries && ancestors == Ancestors(g, selector)
    requires (forall x :: x in current ==> x in g.entries) && NoCutIn(g, current) && deps == DepsOf(g, current)
    requires current != [] && members != [] ==> Ancestors(g, current[0]) * DepsOf(g, members[|members| - 1]) != {}
    requires current == [] ==> members == [] || ancestors * DepsOf(g, members[|members| - 1]) != {}
    requires current == [] || ancestors * deps == {}
    ensures current' == current + [selector] && deps' == DepsOf(g, current')
    ensures OpenGroup(g, members, current')
  {
    Extend(g, members, current, selector);
    DepsPush(g, current, selector);
    current' := current + [selector];
    deps' := deps + {selector} + ancestors;
  }

  /** The flag the second loop gives a group: only a group of several elements with a dangerous one is kept sequential. */
  function ParallelFlag(es: seq<InteractiveElement>): bool {
    if |es| > 1 then !AnyDangerous(es) else true
  }

  /**
   * `group_by_parallelization`: the groups partition the known selectors in sorted
   * order, are numbered by position, carry their dependency sets, are cut exactly
   * where a selector depends on the current group, and run in parallel unless they
   * hold several elements one of which is dangerous.
   */
  method GroupByParallelization(g: NodeTable, sorted: seq<string>) returns (groups: seq<ExecutionGroup>, ghost members: seq<seq<string>>)
    ensures |groups| == |members| && GroupsOk(g, members)
    ensures Flatten(members) == Known(g, sorted)
    ensures forall k :: 0 <= k < |groups| ==>
      && groups[k].elements == ElementsOf(g, members[k])
      && groups[k].groupId == k
      && groups[k].dependencies == DepsOf(g, members[k])
      && (groups[k].canParallel <==> |members[k]| <= 1 || !AnyDangerous(groups[k].elements))
    ensures NoCutInside(g, members) && CutsJustified(g, members)
    ensures forall k :: 0 <= k < |groups| ==>
      groups[k].groupId == k && groups[k].elements != [] && (groups[k].canParallel <==> ParallelFlag(groups[k].elements))
  {
    groups, members := CutIntoGroups(g, sorted);
    ghost var raw := groups;
    assert forall j :: 0 <= j < |groups| ==> groups[j] == raw[j].(canParallel := true);
    for k := 0 to |groups|
      invariant |groups| == |raw|
      invariant forall j :: 0 <= j < |groups| ==> groups[j] == raw[j].(canParallel := if j < k then ParallelFlag(raw[j].elements) else true)
    {
      if |groups[k].elements| > 1 {
        var hasDangerous := AnyDangerous(groups[k].elements);
        groups := groups[k := groups[k].(canParallel := !hasDangerous)];
      }
    }
  }

  // ---------------------------------------------------------------------------
  // Why the groups are safe to run in parallel
  // ---------------------------------------------------------------------------

  lemma {:induction false} AncestorsFirstSplit(g: NodeTable, a: seq<string>, b: seq<string>)
    requires AncestorsFirst(g, a + b)
    ensures AncestorsFirst(g, a) && AncestorsFirst(g, b)
  {
    forall i, j | 0 <= i < j < |b|
      ensures b[j] !in Ancestors(g, b[i])
    {
      assert (a + b)[|a| + i] == b[i] && (a + b)[|a| + j] == b[j];
    }
    forall i, j | 0 <= i < j < |a|
      ensures a[j] !in Ancestors(g, a[i])
    {
      assert (a + b)[i] == a[i] && (a + b)[j] == a[j];
    }
  }

  lemma {:induction false} AncestorsFirstGroups(g: NodeTable, ms: seq<seq<string>>)
    requires AncestorsFirst(g, Flatten(ms))
    ensures forall k :: 0 <= k < |ms| ==> AncestorsFirst(g, ms[k])
  {
    if ms != [] {
      var init := ms[..|ms| - 1];
      AncestorsFirstSplit(g, Flatten(init), ms[|ms| - 1]);
      AncestorsFirstGroups(g, init);
      assert forall k :: 0 <= k < |init| ==> init[k] == ms[k];
    }
  }

  /**
   * Cut from an order that puts no node before one of its ancestors, no member of
   * a group is an ancestor of another member of the same group.
   */
  lemma GroupMembersIndependent(g: NodeTable, sorted: seq<string>, members: seq<seq<string>>)
    requires AncestorsFirst(g, Known(g, sorted))
    requires Flatten(members) == Known(g, sorted) && NoCutInside(g, members)
    ensures forall k, i, j :: 0 <= k < |members| && 0 <= i < |members[k]| && 0 <= j < |members[k]| && i != j ==>
      members[k][i] !in Ancestors(g, members[k][j])
  {
    AncestorsFirstGroups(g, members);
    forall k, i, j | 0 <= k < |members| && 0 <= i < |members[k]| && 0 <= j < |members[k]| && i != j
      ensures members[k][i] !in Ancestors(g, members[k][j])
    {
      var m := members[k];
      if i < j {
        assert NoCutIn(g, m);
        DepsOfHoldsMembers(g, m[..j]);
        assert m[i] in m[..j];
      }
    }
  }

  /** In particular for the output of the sort: a ready-order lists only nodes, in ancestors-first order. */
  lemma SortedGroupsIndependent(g: NodeTable, result: seq<string>, members: seq<seq<string>>)
    requires WellFormed(g) && ReadyOrder(g, result)
    requires Flatten(members) == Known(g, result) && NoCutInside(g, members)
    ensures Known(g, result) == result
    ensures forall k, i, j :: 0 <= k < |members| && 0 <= i < |members[k]| && 0 <= j < |members[k]| && i != j ==>
      members[k][i] !in Ancestors(g, members[k][j])
  {
    ReadyOrderDistinct(g, result);
    KnownOfNodes(g, result);
    ReadyOrderIsAncestorsFirst(g, result);
    GroupMembersIndependent(g, result, members);
  }

  lemma {:induction false} KnownOfNodes(g: NodeTable, s: seq<string>)
    requires forall x :: x in s ==> x in g.entries
    ensures Known(g, s) == s
  {
    if s != [] {
      var init, last := s[..|s| - 1], s[|s| - 1];
      assert s == init + [last];
      assert forall x :: x in init ==> x in s;
      KnownOfNodes(g, init);
      assert Known(g, s) == Known(g, init) + [last];
    }
  }
}
