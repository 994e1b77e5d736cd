// getWorkspaceIDNameFromString, branches r, m, e and empty: the loops that turn
// a relative selector into a workspace id, each proved against a closed form.
// WorkspaceResolverProofs.dfy relates the closed forms to the order of
// WorkspaceOrder.dfy.
module WorkspaceResolver {
  import opened Common
  import opened WorkspaceOrder

  const INT32_MAX: int := 0x7fff_ffff
  const SIZE_T: int := 0x1_0000_0000_0000_0000

  // '~', '+' and '-'
  datatype Jump = Absolute | Forward | Backward

  datatype Workspace = Workspace(id: int, special: bool, monitor: int, windows: nat)

  // `monitor` is what the rule's monitor string resolves to, if anything.
  datatype WorkspaceRule = WorkspaceRule(enabled: bool, monitor: Option<int>, workspaceId: int)

  // ---------- Machine words ----------

  // Conversion to size_t.
  function AsSize(x: int): int { x % SIZE_T }

  // Conversion of a size_t to int64_t.
  function AsSigned(x: int): int { if x > INT64_MAX then x - SIZE_T else x }

  // ---------- Collecting ----------

  // Ids that belong to, or are bound to, some other monitor, and special ids.
  ghost function ForbiddenIds(workspaces: seq<Workspace>, rules: seq<WorkspaceRule>, monitor: int): set<int> {
    Foreign(workspaces, monitor) + BoundElsewhere(rules, monitor)
  }

  ghost function Foreign(workspaces: seq<Workspace>, monitor: int): set<int> {
    set w | w in workspaces && (w.special || w.monitor != monitor) :: w.id
  }

  ghost function BoundElsewhere(rules: seq<WorkspaceRule>, monitor: int): set<int> {
    set r | r in rules && r.enabled && r.monitor.Some? && r.monitor.value != monitor :: r.workspaceId
  }

  method CollectBound(rules: seq<WorkspaceRule>, monitor: int) returns (invalidWSes: set<int>)
    ensures invalidWSes == BoundElsewhere(rules, monitor)
    ensures |invalidWSes| <= |rules|
  {
    invalidWSes := {};
    for i := 0 to |rules|
      invariant invalidWSes == BoundElsewhere(rules[..i], monitor)
      invariant |invalidWSes| <= i
    {
      assert rules[..i + 1] == rules[..i] + [rules[i]];
      if !rules[i].enabled || rules[i].monitor == None || rules[i].monitor.value == monitor {
        continue;
      }
      invalidWSes := invalidWSes + {rules[i].workspaceId};
    }
    assert rules[..|rules|] == rules;
  }

  method CollectForeign(workspaces: seq<Workspace>, monitor: int) returns (invalidWSes: set<int>)
    ensures invalidWSes == Foreign(workspaces, monitor)
    ensures |invalidWSes| <= |workspaces|
  {
    invalidWSes := {};
    for i := 0 to |workspaces|
      invariant invalidWSes == Foreign(workspaces[..i], monitor)
      invariant |invalidWSes| <= i
    {
      assert workspaces[..i + 1] == workspaces[..i] + [workspaces[i]];
      if workspaces[i].special || workspaces[i].monitor != monitor {
        invalidWSes := invalidWSes + {workspaces[i].id};
      }
    }
    assert workspaces[..|workspaces|] == workspaces;
  }

  method CollectForbidden(workspaces: seq<Workspace>, rules: seq<WorkspaceRule>, monitor: int)
    returns (invalidWSes: set<int>)
    ensures invalidWSes == ForbiddenIds(workspaces, rules, monitor)
    ensures |invalidWSes| <= |workspaces| + |rules|
  {
    var foreign := CollectForeign(workspaces, monitor);
    var bound := CollectBound(rules, monitor);
    invalidWSes := foreign + bound;
  }

  predicate IsNamedHere(w: Workspace, monitor: int) {
    !w.special && w.monitor == monitor && w.id < 0
  }

  predicate IsCycled(w: Workspace, monitor: int, onAllMonitors: bool) {
    !w.special && (w.monitor == monitor || onAllMonitors)
  }

  function NamedHere(monitor: int): Workspace -> bool {
    w => IsNamedHere(w, monitor)
  }

  function Cycled(monitor: int, onAllMonitors: bool): Workspace -> bool {
    w => IsCycled(w, monitor, onAllMonitors)
  }

  // std::ranges::sort, as a specified library function.
  function SortedInsert(s: seq<int>, x: int): (r: seq<int>)
    requires Ascending(s) && x !in s
    ensures Ascending(r) && |r| == |s| + 1
    ensures forall y :: y in r <==> y in s || y == x
  {
    if s == [] || x < s[0] then [x] + s
    else
      var rest := SortedInsert(s[1..], x);
      assert forall y :: y in s <==> y == s[0] || y in s[1..];
      assert forall j :: 0 <= j < |rest| ==> rest[j] in rest;
      [s[0]] + rest
  }

  function Sorted(s: seq<int>): (r: seq<int>)
    requires Distinct(s)
    ensures Ascending(r) && |r| == |s|
    ensures forall y :: y in r <==> y in s
  {
    if s == [] then [] else
      assert forall y :: y in s <==> y == s[0] || y in s[1..];
      SortedInsert(Sorted(s[1..]), s[0])
  }

  ghost predicate DistinctIds(workspaces: seq<Workspace>) {
    forall i, j :: 0 <= i < j < |workspaces| ==> workspaces[i].id != workspaces[j].id
  }

  function IdsWhere(workspaces: seq<Workspace>, keep: Workspace -> bool): (ids: seq<int>)
    ensures |ids| <= |workspaces|
  {
    if workspaces == [] then []
    else
      var last := workspaces[|workspaces| - 1];
      IdsWhere(workspaces[..|workspaces| - 1], keep) + if keep(last) then [last.id] else []
  }

  // Some workspace to keep has this id.
  ghost predicate Kept(workspaces: seq<Workspace>, keep: Workspace -> bool, id: int) {
    exists w :: w in workspaces && keep(w) && w.id == id
  }

  lemma {:induction false} IdsWhereKept(workspaces: seq<Workspace>, keep: Workspace -> bool, id: int)
    ensures id in IdsWhere(workspaces, keep) <==> Kept(workspaces, keep, id)
  {
    if workspaces != [] {
      var before, last := workspaces[..|workspaces| - 1], workspaces[|workspaces| - 1];
      IdsWhereKept(before, keep, id);
      assert forall w :: w in workspaces <==> w in before || w == last;
    }
  }

  lemma {:induction false} IdsWhereDistinct(workspaces: seq<Workspace>, keep: Workspace -> bool)
    requires DistinctIds(workspaces)
    ensures Distinct(IdsWhere(workspaces, keep))
  {
    if workspaces != [] {
      var before, last := workspaces[..|workspaces| - 1], workspaces[|workspaces| - 1];
      IdsWhereDistinct(before, keep);
      IdsWhereKept(before, keep, last.id);
      assert forall i :: 0 <= i < |before| ==> before[i].id != last.id;
    }
  }

  // The ids of the workspaces to keep, ascending, each once.
  ghost function Listed(workspaces: seq<Workspace>, keep: Workspace -> bool): (ids: seq<int>)
    requires DistinctIds(workspaces)
    ensures Ascending(ids) && |ids| == |IdsWhere(workspaces, keep)|
    ensures forall id :: id in ids <==> Kept(workspaces, keep, id)
  {
    IdsWhereDistinct(workspaces, keep);
    assert forall id :: id in IdsWhere(workspaces, keep) <==> Kept(workspaces, keep, id) by {
      forall id
        ensures id in IdsWhere(workspaces, keep) <==> Kept(workspaces, keep, id)
      {
        IdsWhereKept(workspaces, keep, id);
      }
    }
    Sorted(IdsWhere(workspaces, keep))
  }

  method CollectNamed(workspaces: seq<Workspace>, monitor: int) returns (namedWSes: seq<int>)
    requires DistinctIds(workspaces)
    ensures namedWSes == Listed(workspaces, NamedHere(monitor))
  {
    var found: seq<int> := [];
    for i := 0 to |workspaces|
      invariant found == IdsWhere(workspaces[..i], NamedHere(monitor))
    {
      assert workspaces[..i + 1][..i] == workspaces[..i];
      if workspaces[i].special || workspaces[i].monitor != monitor || workspaces[i].id >= 0 {
        continue;
      }
      found := found + [workspaces[i].id];
    }
    assert workspaces[..|workspaces|] == workspaces;
    IdsWhereDistinct(workspaces, NamedHere(monitor));
    namedWSes := Sorted(found);
  }

  method CollectCycled(workspaces: seq<Workspace>, monitor: int, onAllMonitors: bool) returns (validWSes: seq<int>)
    requires DistinctIds(workspaces)
    ensures validWSes == Listed(workspaces, Cycled(monitor, onAllMonitors))
  {
    var found: seq<int> := [];
    for i := 0 to |workspaces|
      invariant found == IdsWhere(workspaces[..i], Cycled(monitor, onAllMonitors))
    {
      assert workspaces[..i + 1][..i] == workspaces[..i];
      if workspaces[i].special || (workspaces[i].monitor != monitor && !onAllMonitors) {
        continue;
      }
      found := found + [workspaces[i].id];
    }
    assert workspaces[..|workspaces|] == workspaces;
    IdsWhereDistinct(workspaces, Cycled(monitor, onAllMonitors));
    validWSes := Sorted(found);
  }

  // ---------- Counting and walking ----------

  // std::set::upper_bound: the least element above `key`.
  method UpperBound(s: set<int>, key: int) returns (it: Option<int>)
    ensures it == None ==> forall x :: x in s ==> x <= key
    ensures it.Some? ==> it.value in s && it.value > key && forall x :: x in s && x > key ==> it.value <= x
  {
    it := None;
    var rest := s;
    while rest != {}
      invariant rest <= s
      invariant it == None ==> forall x :: x in s && x !in rest ==> x <= key
      invariant it.Some? ==> it.value in s && it.value > key
      invariant it.Some? ==> forall x :: x in s && x !in rest && x > key ==> it.value <= x
    {
      HasElement(rest);
      var x :| x in rest;
      rest := rest - {x};
      if x > key && (it == None || x < it.value) {
        it := Some(x);
      }
    }
  }

  // How many forbidden ids the guess skipped.
  method CountForbidden(invalidWSes: set<int>, beginID: int, endID: int) returns (count: nat)
    ensures count == Forbidden(invalidWSes, beginID, endID)
  {
    count := 0;
    var it := UpperBound(invalidWSes, beginID - 1);
    ghost var passed := beginID - 1;
    while it.Some? && it.value <= endID
      invariant passed >= beginID - 1
      invariant passed < beginID || passed <= endID
      invariant it.Some? ==> it.value in invalidWSes && it.value > passed
      invariant forall x :: x in invalidWSes && x > passed ==> it.Some? && it.value <= x
      invariant count == Forbidden(invalidWSes, beginID, passed)
      decreases endID - passed
    {
      ForbiddenSplit(invalidWSes, beginID, passed, it.value - 1);
      NoneForbidden(invalidWSes, passed + 1, it.value - 1);
      ForbiddenEnds(invalidWSes, beginID, it.value);
      count := count + 1;
      passed := it.value;
      it := UpperBound(invalidWSes, it.value);
    }
    if passed <= endID {
      ForbiddenSplit(invalidWSes, beginID, passed, endID);
      NoneForbidden(invalidWSes, passed + 1, endID);
    }
  }

  // Where walking up past `k` allowed ids ends, given the INT32_MAX cap.
  ghost function CappedWalk(inv: set<int>, from: int, k: nat): int {
    var target := NthAbove(inv, from, k);
    if target < INT32_MAX then target else Max(from, INT32_MAX - 1)
  }

  method WalkUp(invalidWSes: set<int>, from: int, remaining: nat) returns (finalWSID: int)
    ensures finalWSID == CappedWalk(invalidWSes, from, remaining)
  {
    finalWSID := from;
    var remainingWSes := remaining;
    var curID := from + 1;
    while curID < INT32_MAX && remainingWSes > 0
      invariant curID == finalWSID + 1
      invariant NthAbove(invalidWSes, finalWSID, remainingWSes) == NthAbove(invalidWSes, from, remaining)
      invariant from < finalWSID ==> curID <= INT32_MAX
      invariant from <= finalWSID
      decreases INT32_MAX - curID
    {
      NthAboveStep(invalidWSes, finalWSID, remainingWSes);
      if curID !in invalidWSes {
        remainingWSes := remainingWSes - 1;
      }
      finalWSID := curID;
      curID := curID + 1;
    }
    NthAboveGrows(invalidWSes, finalWSID, 0, remainingWSes);
  }

  // Where walking down past `k` allowed ids stops, and how many were not passed.
  ghost function Lowest(inv: set<int>, from: int, k: nat): int {
    if k <= Free(inv, 1, from - 1) then NthBelow(inv, from, k) else if from > 1 then 1 else from
  }

  ghost function NotPassed(inv: set<int>, from: int, k: nat): nat {
    if k <= Free(inv, 1, from - 1) then 0 else k - Free(inv, 1, from - 1)
  }

  method WalkDown(invalidWSes: set<int>, from: int, remaining: nat) returns (finalWSID: int, remainingWSes: nat)
    ensures finalWSID == Lowest(invalidWSes, from, remaining)
    ensures remainingWSes == NotPassed(invalidWSes, from, remaining)
  {
    finalWSID := from;
    remainingWSes := remaining;
    var curID := from - 1;
    while curID > 0 && remainingWSes > 0
      invariant curID == finalWSID - 1
      invariant finalWSID <= from && (from >= 1 ==> finalWSID >= 1)
      invariant Lowest(invalidWSes, finalWSID, remainingWSes) == Lowest(invalidWSes, from, remaining)
      invariant NotPassed(invalidWSes, finalWSID, remainingWSes) == NotPassed(invalidWSes, from, remaining)
      decreases curID
    {
      NthBelowStep(invalidWSes, finalWSID, remainingWSes);
      FreeEnds(invalidWSes, 1, curID);
      if curID !in invalidWSes {
        remainingWSes := remainingWSes - 1;
      }
      finalWSID := curID;
      curID := curID - 1;
    }
  }

  // ---------- r~N ----------

  // The enumeration has no bound of its own; it ends because the forbidden set is finite.
  method Enumerate(invalidWSes: set<int>, remaining: int) returns (id: int)
    ensures id == if remaining < 0 then 0 else NthAbove(invalidWSes, 0, remaining + 1)
  {
    id := 0;
    if remaining < 0 {
      return;
    }
    var remains := remaining;
    while remains >= 0
      invariant remains >= -1
      invariant NthAbove(invalidWSes, id, remains + 1) == NthAbove(invalidWSes, 0, remaining + 1)
      decreases remains + 1, Ahead(invalidWSes, id)
    {
      NthAboveStep(invalidWSes, id, remains + 1);
      id := id + 1;
      if id !in invalidWSes {
        remains := remains - 1;
      } else {
        AboveShrinks(invalidWSes, id - 1);
      }
    }
  }

  method AbsoluteId(invalidWSes: set<int>, namedWSes: seq<int>, n: int) returns (id: int)
    requires -INT32_MAX - 1 <= n <= INT32_MAX && |namedWSes| <= INT64_MAX
    ensures id == Entry(invalidWSes, namedWSes, n)
  {
    var remains := n - 1;
    if AsSize(remains) < |namedWSes| {
      id := namedWSes[remains];
    } else {
      id := Enumerate(invalidWSes, remains - |namedWSes|);
    }
  }

  // ---------- r+N and r-N ----------

  // The index of `id`, or size_t(-1).
  function ItemOf(named: seq<int>, id: int): int {
    if id in named then FirstIndex(named, id) else SIZE_T - 1
  }

  function FirstIndex(s: seq<int>, x: int): (i: nat)
    requires x in s
    ensures i < |s| && s[i] == x && x !in s[..i]
  {
    if s[0] == x then 0 else
      var i := 1 + FirstIndex(s[1..], x);
      assert s[..i] == [s[0]] + s[1..][..i - 1];
      i
  }

  lemma {:induction false} FirstIndexIs(s: seq<int>, x: int, i: nat)
    requires i < |s| && s[i] == x && x !in s[..i]
    ensures FirstIndex(s, x) == i
  {}

  // Where a step past the last named workspace lands: this many steps above an imaginary id 0.
  function PastSeam(named: seq<int>, item: int): int {
    AsSigned(AsSize(item - AsSize(|named| - 1)))
  }

  ghost function ForwardTarget(inv: set<int>, named: seq<int>, active: int, n: nat): int {
    var miscounted := Forbidden(inv, active + 1, Max(active + n, 0));
    if active >= 0 then CappedWalk(inv, active + n, miscounted)
    else
      var item := AsSize(ItemOf(named, active) + n);
      if item < |named| then named[item]
      else CappedWalk(inv, PastSeam(named, item), miscounted + Forbidden(inv, 1, PastSeam(named, item)))
  }

  // The fallback of a downward walk that ended with `left` steps to go.
  ghost function FallBack(inv: set<int>, named: seq<int>, from: int, left: nat): int {
    if named == [] then CappedWalk(inv, from, 1)
    else if 1 <= left <= |named| then named[|named| - left]
    else named[|named| - 1]
  }

  ghost function Descend(inv: set<int>, named: seq<int>, from: int, k: nat): int {
    var lowest := Lowest(inv, from, k);
    if lowest > 0 && lowest !in inv then lowest
    else FallBack(inv, named, from, NotPassed(inv, from, k))
  }

  ghost function BackwardTarget(inv: set<int>, named: seq<int>, active: int, n: nat): int {
    var guess := Max(active - n, 0);
    var miscounted := Forbidden(inv, guess, active);
    if active >= 0 then Descend(inv, named, guess, miscounted)
    else
      var item := AsSize(ItemOf(named, active) - n);
      if item < |named| then Descend(inv, named, named[item], 0)
      else CappedWalk(inv, PastSeam(named, item), miscounted + Forbidden(inv, 1, PastSeam(named, item)))
  }

  ghost function Target(inv: set<int>, named: seq<int>, active: int, jump: Jump, n: int): int
    requires !jump.Absolute? ==> n >= 0
  {
    match jump
    case Absolute => Entry(inv, named, n)
    case Forward => ForwardTarget(inv, named, active, n)
    case Backward => BackwardTarget(inv, named, active, n)
  }

  method FindItem(namedWSes: seq<int>, activeWSID: int) returns (currentItem: int)
    ensures currentItem == ItemOf(namedWSes, activeWSID)
  {
    currentItem := SIZE_T - 1;
    for i := 0 to |namedWSes|
      invariant activeWSID !in namedWSes[..i]
      invariant currentItem == SIZE_T - 1
    {
      assert namedWSes[..i + 1] == namedWSes[..i] + [namedWSes[i]];
      if namedWSes[i] == activeWSID {
        FirstIndexIs(namedWSes, activeWSID, i);
        return i;
      }
    }
    assert namedWSes[..|namedWSes|] == namedWSes;
  }

  // The second half of r+N and r-N: walk on from the guess.
  method Walk(invalidWSes: set<int>, namedWSes: seq<int>, dir: Jump, predictedWSID: int, remaining: nat)
    returns (finalWSID: int)
    requires !dir.Absolute? && remaining <= SIZE_T / 2 && |namedWSes| <= INT64_MAX
    ensures finalWSID == if dir.Forward? then CappedWalk(invalidWSes, predictedWSID, remaining)
                         else Descend(invalidWSes, namedWSes, predictedWSID, remaining)
  {
    var walkDir := dir;
    var remainingWSes := remaining;
    finalWSID := predictedWSID;
    if walkDir.Backward? {
      var beginID := finalWSID;
      finalWSID, remainingWSes := WalkDown(invalidWSes, finalWSID, remainingWSes);
      if finalWSID <= 0 || finalWSID in invalidWSes {
        if namedWSes != [] {
          var namedWSIdx := AsSize(|namedWSes| - remainingWSes);
          namedWSIdx := if namedWSIdx > |namedWSes| - 1 then |namedWSes| - 1 else namedWSIdx;
          finalWSID := namedWSes[namedWSIdx];
        } else {
          walkDir := Forward;
          finalWSID := beginID;
          remainingWSes := 1;
        }
      }
    }
    if walkDir.Forward? {
      finalWSID := WalkUp(invalidWSes, finalWSID, remainingWSes);
    }
  }

  // Named workspaces come before all others, so a step from one starts among them.
  method StartFromNamed(invalidWSes: set<int>, namedWSes: seq<int>, activeWSID: int, dir: Jump, remains: int,
      miscounted: nat)
    returns (predictedWSID: int, remainingWSes: nat, walkDir: Jump)
    requires |invalidWSes| <= INT32_MAX && miscounted <= |invalidWSes| && |namedWSes| <= INT64_MAX
    ensures remainingWSes <= 2 * |invalidWSes|
    ensures var item := AsSize(ItemOf(namedWSes, activeWSID) + remains);
            (predictedWSID, remainingWSes, walkDir) ==
            if item < |namedWSes| then (namedWSes[item], 0, dir)
            else (PastSeam(namedWSes, item), miscounted + Forbidden(invalidWSes, 1, PastSeam(namedWSes, item)), Forward)
  {
    remainingWSes := miscounted;
    walkDir := dir;
    var currentItem := FindItem(namedWSes, activeWSID);
    currentItem := AsSize(currentItem + remains);
    if currentItem >= |namedWSes| {
      predictedWSID := AsSigned(AsSize(currentItem - AsSize(|namedWSes| - 1)));
      var more := CountForbidden(invalidWSes, 1, predictedWSID);
      FewInSpan(invalidWSes, 1, predictedWSID);
      remainingWSes := remainingWSes + more;
      walkDir := Forward;
    } else {
      remainingWSes := 0;
      predictedWSID := namedWSes[currentItem];
    }
  }

  method SignedId(invalidWSes: set<int>, namedWSes: seq<int>, activeWSID: int, jump: Jump, n: nat) returns (id: int)
    requires !jump.Absolute? && n <= INT32_MAX && |namedWSes| <= INT64_MAX
    requires |invalidWSes| <= INT32_MAX
    ensures id == Target(invalidWSes, namedWSes, activeWSID, jump, n)
  {
    var remains: int := n;
    if jump.Backward? {
      remains := -remains;
    }
    var predictedWSID := Max(activeWSID + remains, 0);
    var walkDir := jump;
    var beginID := if jump.Forward? then activeWSID + 1 else predictedWSID;
    var endID := if jump.Forward? then predictedWSID else activeWSID;
    var remainingWSes := CountForbidden(invalidWSes, beginID, endID);
    FewInSpan(invalidWSes, beginID, endID);

    if activeWSID < 0 {
      predictedWSID, remainingWSes, walkDir := StartFromNamed(invalidWSes, namedWSes, activeWSID, jump, remains,
          remainingWSes);
    }

    id := Walk(invalidWSes, namedWSes, walkDir, predictedWSID, remainingWSes);
  }

  lemma {:induction false} FewInSpan(inv: set<int>, lo: int, hi: int)
    ensures Forbidden(inv, lo, hi) <= |inv|
  {
    CardinalityMonotone(ForbiddenIn(inv, lo, hi), inv);
  }

  lemma {:induction false} CardinalityMonotone(a: set<int>, b: set<int>)
    requires a <= b
    ensures |a| <= |b|
  {
    if a != {} {
      HasElement(a);
      var x :| x in a;
      CardinalityMonotone(a - {x}, b - {x});
    }
  }

  // What the r branch answers. Without an active workspace the code starts from 1.
  ghost function OnMonitor(workspaces: seq<Workspace>, rules: seq<WorkspaceRule>, monitor: int, active: Option<int>,
      jump: Jump, n: int): int
    requires DistinctIds(workspaces) && (!jump.Absolute? ==> n >= 0)
  {
    Target(ForbiddenIds(workspaces, rules, monitor), Listed(workspaces, NamedHere(monitor)), active.GetOr(1), jump, n)
  }

  // The whole r branch: collect, then jump.
  method ResolveOnMonitor(workspaces: seq<Workspace>, rules: seq<WorkspaceRule>, monitor: int,
                          active: Option<int>, jump: Jump, n: int)
    returns (id: int)
    requires DistinctIds(workspaces) && |workspaces| + |rules| <= INT32_MAX
    requires -INT32_MAX - 1 <= n <= INT32_MAX && (!jump.Absolute? ==> n >= 0)
    ensures id == OnMonitor(workspaces, rules, monitor, active, jump, n)
  {
    var invalidWSes := CollectForbidden(workspaces, rules, monitor);
    var namedWSes := CollectNamed(workspaces, monitor);
    if jump.Absolute? {
      id := AbsoluteId(invalidWSes, namedWSes, n);
    } else {
      id := SignedId(invalidWSes, namedWSes, active.GetOr(1), jump, n);
    }
  }

  // ---------- m~N, m+N, m-N and the same with e ----------

  // -1 when the active workspace is not listed.
  function Position(valid: seq<int>, active: int): int {
    if active in valid then FirstIndex(valid, active) else -1
  }

  function Clamp(x: int, lo: int, hi: int): int {
    if x < lo then lo else if x > hi then hi else x
  }

  // Addition modulo the number of workspaces.
  function Cycle(valid: seq<int>, active: int, steps: int): int
    requires valid != []
  {
    valid[(Position(valid, active) + steps) % |valid|]
  }

  method CycleId(validWSes: seq<int>, activeWSID: int, jump: Jump, n: int) returns (id: int)
    requires validWSes != [] && (!jump.Absolute? ==> n >= 0)
    ensures jump.Absolute? ==> id == validWSes[Clamp(n - 1, 0, |validWSes| - 1)]
    ensures jump.Forward? ==> id == Cycle(validWSes, activeWSID, n)
    ensures jump.Backward? ==> id == Cycle(validWSes, activeWSID, -n)
  {
    var remains := if jump.Backward? then -n else n;
    var currentItem := -1;
    var size := |validWSes|;
    if jump.Absolute? {
      currentItem := remains - 1;
      if currentItem < 0 {
        currentItem := 0;
      } else if currentItem >= size {
        currentItem := size - 1;
      }
    } else {
      ghost var asked := remains;
      remains := if remains < 0 then -((-remains) % size) else remains % size;
      for i := 0 to size
        invariant activeWSID !in validWSes[..i]
        invariant currentItem == -1
      {
        assert validWSes[..i + 1] == validWSes[..i] + [validWSes[i]];
        if validWSes[i] == activeWSID {
          FirstIndexIs(validWSes, activeWSID, i);
          currentItem := i;
          break;
        }
      }
      assert validWSes[..size] == validWSes;
      assert currentItem == Position(validWSes, activeWSID);
      ghost var start := currentItem;
      currentItem := currentItem + remains;
      if currentItem >= size {
        currentItem := currentItem % size;
      } else if currentItem < 0 {
        currentItem := size + currentItem;
      }
      WrapIsModulo(size, start, asked, remains, currentItem);
    }
    id := validWSes[currentItem];
  }

  // What the m branch answers, and the e branch with onAllMonitors.
  ghost function Cycling(workspaces: seq<Workspace>, monitor: int, onAllMonitors: bool, active: Option<int>,
      jump: Jump, n: int): int
    requires DistinctIds(workspaces) && Listed(workspaces, Cycled(monitor, onAllMonitors)) != []
  {
    var valid := Listed(workspaces, Cycled(monitor, onAllMonitors));
    match jump
    case Absolute => valid[Clamp(n - 1, 0, |valid| - 1)]
    case Forward => Cycle(valid, active.GetOr(1), n)
    case Backward => Cycle(valid, active.GetOr(1), -n)
  }

  // The whole m or e branch.
  method ResolveCycle(workspaces: seq<Workspace>, monitor: int, onAllMonitors: bool, active: Option<int>,
      jump: Jump, n: int)
    returns (id: int)
    requires DistinctIds(workspaces) && (!jump.Absolute? ==> n >= 0)
    requires Listed(workspaces, Cycled(monitor, onAllMonitors)) != []
    ensures id == Cycling(workspaces, monitor, onAllMonitors, active, jump, n)
  {
    var validWSes := CollectCycled(workspaces, monitor, onAllMonitors);
    id := CycleId(validWSes, active.GetOr(1), jump, n);
  }

  lemma {:induction false} AtLeastOnce(d: int, k: int)
    requires d >= 1 && k >= 0
    ensures d * k >= k
  {
    assert d * k == (d - 1) * k + k;
  }

  lemma {:induction false} SameRemainder(k: int, q: int, r: int, q': int, r': int)
    requires 0 <= r < k && 0 <= r' < k && q * k + r == q' * k + r'
    ensures r == r'
  {
    if q > q' {
      AtLeastOnce(q - q', k);
      assert false;
    } else if q < q' {
      AtLeastOnce(q' - q, k);
      assert false;
    }
  }

  // x % k is the only remainder in range.
  lemma {:induction false} ModUnique(k: int, x: int, q: int, r: int)
    requires 0 <= r < k && x == q * k + r
    ensures x % k == r
  {
    assert x == x / k * k + x % k;
    SameRemainder(k, q, r, x / k, x % k);
  }

  // The offset is reduced towards zero, the way C++ reduces it.
  lemma {:induction false} OffsetQuotient(k: int, asked: int, remains: int) returns (q: int)
    requires k > 0 && remains == if asked < 0 then -((-asked) % k) else asked % k
    ensures asked == q * k + remains && -k < remains < k
  {
    if asked < 0 {
      q := -((-asked) / k);
      assert -asked == (-asked) / k * k + (-asked) % k;
    } else {
      q := asked / k;
    }
  }

  lemma {:induction false} WrapIsModulo(k: int, start: int, asked: int, remains: int, item: int)
    requires k > 0 && -1 <= start < k
    requires remains == if asked < 0 then -((-asked) % k) else asked % k
    requires item == if start + remains >= k then (start + remains) % k
                     else if start + remains < 0 then k + (start + remains)
                     else start + remains
    ensures 0 <= item < k && item == (start + asked) % k
  {
    var q := OffsetQuotient(k, asked, remains);
    var turns := if start + remains >= k then 1 else if start + remains < 0 then -1 else 0;
    if turns == 1 {
      ModUnique(k, start + remains, 1, start + remains - k);
    }
    assert item == start + remains - turns * k;
    assert (q + turns) * k == q * k + turns * k;
    ModUnique(k, start + asked, q + turns, item);
  }

  // ---------- empty ----------

  ghost function Occupied(workspaces: seq<Workspace>): set<int> {
    set w | w in workspaces && w.windows > 0 :: w.id
  }

  function FindById(workspaces: seq<Workspace>, id: int): Option<Workspace> {
    if workspaces == [] then None
    else if workspaces[0].id == id then Some(workspaces[0])
    else FindById(workspaces[1..], id)
  }

  lemma {:induction false} FindByIdFinds(workspaces: seq<Workspace>, id: int)
    requires DistinctIds(workspaces)
    ensures id in Occupied(workspaces) <==>
            var w := FindById(workspaces, id); w.Some? && w.value.windows > 0
  {
    if workspaces != [] {
      FindByIdFinds(workspaces[1..], id);
      assert forall w :: w in workspaces <==> w == workspaces[0] || w in workspaces[1..];
    }
  }

  ghost function EmptyTarget(taken: set<int>, start: int): int {
    if NextAllowed(taken, start) < INT64_MAX then NextAllowed(taken, start) else WORKSPACE_INVALID
  }

  // The least id above `start` that is neither bound elsewhere nor occupied.
  method EmptyId(workspaces: seq<Workspace>, invalidWSes: set<int>, start: int) returns (id: int)
    requires DistinctIds(workspaces)
    ensures id == EmptyTarget(invalidWSes + Occupied(workspaces), start)
  {
    ghost var taken := invalidWSes + Occupied(workspaces);
    id := start + 1;
    while id < INT64_MAX
      invariant start < id
      invariant forall x :: start < x < id ==> x in taken
      decreases INT64_MAX - id
    {
      FindByIdFinds(workspaces, id);
      var w := FindById(workspaces, id);
      if id !in invalidWSes && (w == None || w.value.windows == 0) {
        NextAllowedUnique(taken, start, id);
        return;
      }
      id := id + 1;
    }
    assert NextAllowed(taken, start) >= id;
    id := WORKSPACE_INVALID;
  }

  // The whole empty branch: 'm' leaves out what rules bind to other monitors, and 'n'
  // starts from the active workspace.
  method ResolveEmpty(workspaces: seq<Workspace>, rules: seq<WorkspaceRule>, monitor: int, active: int,
      sameMon: bool, next: bool)
    returns (id: int)
    requires DistinctIds(workspaces)
    ensures id == EmptyAnswer(workspaces, rules, monitor, active, sameMon, next)
  {
    var invalidWSes: set<int> := {};
    if sameMon {
      invalidWSes := CollectBound(rules, monitor);
    }
    id := EmptyId(workspaces, invalidWSes, if next then active else 0);
  }

  ghost function EmptyAnswer(workspaces: seq<Workspace>, rules: seq<WorkspaceRule>, monitor: int, active: int,
      sameMon: bool, next: bool): int {
    var bound := if sameMon then BoundElsewhere(rules, monitor) else {};
    EmptyTarget(bound + Occupied(workspaces), if next then active else 0)
  }
}
