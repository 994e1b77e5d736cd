// What the relative selectors answer, in terms of the fields of the workspaces and
// rules they are given.
module ResolveProofs {
  import opened Common
  import opened WorkspaceOrder
  import opened WorkspaceResolver
  import opened WorkspaceResolverProofs

  // ---------- r ----------

  // Some normal workspace of the monitor has this id.
  ghost predicate IsHere(workspaces: seq<Workspace>, monitor: int, id: int) {
    exists w :: w in workspaces && w.id == id && !w.special && w.monitor == monitor
  }

  // Some special workspace, or one of another monitor, has it.
  ghost predicate IsElsewhere(workspaces: seq<Workspace>, monitor: int, id: int) {
    exists w :: w in workspaces && w.id == id && (w.special || w.monitor != monitor)
  }

  // The rule is enabled and binds the id to another monitor.
  ghost predicate BindsAway(r: WorkspaceRule, monitor: int, id: int) {
    r.enabled && r.workspaceId == id && r.monitor != None && r.monitor != Some(monitor)
  }

  ghost predicate IsBoundAway(rules: seq<WorkspaceRule>, monitor: int, id: int) {
    exists r :: r in rules && BindsAway(r, monitor, id)
  }

  lemma {:induction false} ForbiddenMeans(workspaces: seq<Workspace>, rules: seq<WorkspaceRule>, monitor: int, id: int)
    ensures id in ForbiddenIds(workspaces, rules, monitor) <==>
            IsElsewhere(workspaces, monitor, id) || IsBoundAway(rules, monitor, id)
  {
    if r :| r in rules && r.enabled && r.monitor.Some? && r.monitor.value != monitor && r.workspaceId == id {
      assert BindsAway(r, monitor, id);
    }
    if r :| r in rules && BindsAway(r, monitor, id) {
      assert r.workspaceId in BoundElsewhere(rules, monitor);
    }
  }

  lemma {:induction false} NamedMeans(workspaces: seq<Workspace>, monitor: int, id: int)
    requires DistinctIds(workspaces)
    ensures id in Listed(workspaces, NamedHere(monitor)) <==> id < 0 && IsHere(workspaces, monitor, id)
  {}

  // r~ reaches the named workspaces of the monitor, and the positive ids that no special
  // workspace, no workspace of another monitor, and no rule binding them away takes.
  lemma {:induction false} AbsoluteReaches(workspaces: seq<Workspace>, rules: seq<WorkspaceRule>, monitor: int,
      active: Option<int>, id: int)
    requires DistinctIds(workspaces)
    ensures (exists n :: n >= 1 && OnMonitor(workspaces, rules, monitor, active, Absolute, n) == id) <==>
            || (id < 0 && exists w :: w in workspaces && w.id == id && !w.special && w.monitor == monitor)
            || (&& id > 0
                && (forall w :: w in workspaces && w.id == id ==> !w.special && w.monitor == monitor)
                && (forall r :: r in rules && r.workspaceId == id && r.enabled ==>
                      r.monitor == None || r.monitor == Some(monitor)))
  {
    var inv, named := ForbiddenIds(workspaces, rules, monitor), Listed(workspaces, NamedHere(monitor));
    ForbiddenMeans(workspaces, rules, monitor, id);
    NamedMeans(workspaces, monitor, id);
    AllNegative(workspaces, monitor);
    assert IsBoundAway(rules, monitor, id) <==> exists r :: r in rules && BindsAway(r, monitor, id);
    AbsoluteEnumerates(inv, named, id);
    assert forall n :: OnMonitor(workspaces, rules, monitor, active, Absolute, n) == Entry(inv, named, n);
  }

  lemma {:induction false} AllNegative(workspaces: seq<Workspace>, monitor: int)
    requires DistinctIds(workspaces)
    ensures forall x :: x in Listed(workspaces, NamedHere(monitor)) ==> x < 0
  {}

  // Rules that are disabled, resolve to no monitor or bind to this one never matter: two
  // lists that bind the same ids away give the same answers.
  lemma {:induction false} OtherRulesDoNotMatter(workspaces: seq<Workspace>, rules: seq<WorkspaceRule>,
      rules': seq<WorkspaceRule>, monitor: int, active: Option<int>, jump: Jump, n: int)
    requires DistinctIds(workspaces) && (!jump.Absolute? ==> n >= 0)
    requires forall r: WorkspaceRule :: r.enabled && r.monitor != None && r.monitor != Some(monitor) ==>
                 (r in rules <==> r in rules')
    ensures OnMonitor(workspaces, rules, monitor, active, jump, n) ==
            OnMonitor(workspaces, rules', monitor, active, jump, n)
  {
    assert BoundElsewhere(rules, monitor) == BoundElsewhere(rules', monitor);
  }

  lemma {:induction false} CappedIsAllowed(inv: set<int>, from: int, k: nat)
    requires k == 0 ==> from !in inv
    ensures CappedWalk(inv, from, k) < INT32_MAX - 1 ==> CappedWalk(inv, from, k) !in inv
  {
    if k > 0 {
      NthAboveIsNth(inv, from, k);
    }
  }

  lemma {:induction false} ForwardAvoids(inv: set<int>, named: seq<int>, active: int, n: nat)
    requires n > 0 && forall x :: x in named ==> x < 0
    ensures 0 < ForwardTarget(inv, named, active, n) < INT32_MAX - 1 ==> ForwardTarget(inv, named, active, n) !in inv
  {
    if active >= 0 {
      NoneForbidden(inv, active + 1, active + n);
      CappedIsAllowed(inv, active + n, Forbidden(inv, active + 1, active + n));
    } else {
      var item := AsSize(ItemOf(named, active) + n);
      if item < |named| {
        assert named[item] in named;
      } else {
        PastSeamAvoids(inv, PastSeam(named, item), Forbidden(inv, active + 1, Max(active + n, 0)));
      }
    }
  }

  lemma {:induction false} PastSeamAvoids(inv: set<int>, past: int, extra: nat)
    ensures var t := CappedWalk(inv, past, extra + Forbidden(inv, 1, past)); 0 < t < INT32_MAX - 1 ==> t !in inv
  {
    NoneForbidden(inv, 1, past);
    if past > 0 || extra > 0 {
      CappedIsAllowed(inv, past, extra + Forbidden(inv, 1, past));
    }
  }

  lemma {:induction false} DescendAvoids(inv: set<int>, named: seq<int>, from: int, k: nat)
    requires forall x :: x in named ==> x < 0
    ensures var t := Descend(inv, named, from, k); 0 < t < INT32_MAX - 1 ==> t !in inv
  {
    CappedIsAllowed(inv, from, 1);
    assert forall i :: 0 <= i < |named| ==> named[i] in named;
  }

  lemma {:induction false} BackwardAvoids(inv: set<int>, named: seq<int>, active: int, n: nat)
    requires forall x :: x in named ==> x < 0
    ensures 0 < BackwardTarget(inv, named, active, n) < INT32_MAX - 1 ==> BackwardTarget(inv, named, active, n) !in inv
  {
    var guess := Max(active - n, 0);
    var item := AsSize(ItemOf(named, active) - n);
    if active >= 0 {
      DescendAvoids(inv, named, guess, Forbidden(inv, guess, active));
    } else if item < |named| {
      DescendAvoids(inv, named, named[item], 0);
    } else {
      PastSeamAvoids(inv, PastSeam(named, item), Forbidden(inv, guess, active));
    }
  }

  // No r selector, from wherever it starts, answers with a positive id below the cap that
  // a special workspace, a workspace of another monitor, or a rule binding it away takes.
  // Only r+0, which is the active workspace itself, is left out.
  lemma {:induction false} NeverElsewhere(workspaces: seq<Workspace>, rules: seq<WorkspaceRule>, monitor: int,
      active: Option<int>, jump: Jump, n: int)
    requires DistinctIds(workspaces) && (!jump.Absolute? ==> n >= 0) && (jump.Forward? ==> n > 0)
    ensures var id := OnMonitor(workspaces, rules, monitor, active, jump, n);
            0 < id && (jump.Absolute? || id < 2147483646) ==>
              && (forall w :: w in workspaces && w.id == id ==> !w.special && w.monitor == monitor)
              && (forall r :: r in rules && r.workspaceId == id && r.enabled ==>
                    r.monitor == None || r.monitor == Some(monitor))
  {
    var inv, named := ForbiddenIds(workspaces, rules, monitor), Listed(workspaces, NamedHere(monitor));
    var id := OnMonitor(workspaces, rules, monitor, active, jump, n);
    ForbiddenMeans(workspaces, rules, monitor, id);
    assert forall r :: r in rules && BindsAway(r, monitor, id) ==> IsBoundAway(rules, monitor, id);
    AllNegative(workspaces, monitor);
    match jump
    case Absolute =>
      if n >= 1 {
        EntriesAreAllowed(inv, named, n);
        assert n <= |named| ==> named[n - 1] in named;
      }
    case Forward => ForwardAvoids(inv, named, active.GetOr(1), n);
    case Backward => BackwardAvoids(inv, named, active.GetOr(1), n);
  }

  // ---------- m and e ----------

  // The ids that m and e step through: those of normal workspaces, under m only of this
  // monitor.
  ghost function Stops(workspaces: seq<Workspace>, monitor: int, onAllMonitors: bool): set<int> {
    set w | w in workspaces && !w.special && (onAllMonitors || w.monitor == monitor) :: w.id
  }

  lemma {:induction false} ListedAreStops(workspaces: seq<Workspace>, monitor: int, onAllMonitors: bool)
    requires DistinctIds(workspaces)
    ensures forall id :: id in Listed(workspaces, Cycled(monitor, onAllMonitors)) <==>
                id in Stops(workspaces, monitor, onAllMonitors)
  {}

  // The answer is always one of them.
  lemma {:induction false} CycleStaysHere(workspaces: seq<Workspace>, monitor: int, onAllMonitors: bool,
      active: Option<int>, jump: Jump, n: int)
    requires DistinctIds(workspaces) && Listed(workspaces, Cycled(monitor, onAllMonitors)) != []
    ensures Cycling(workspaces, monitor, onAllMonitors, active, jump, n) in Stops(workspaces, monitor, onAllMonitors)
    ensures exists w :: w in workspaces && w.id == Cycling(workspaces, monitor, onAllMonitors, active, jump, n) &&
                !w.special && (onAllMonitors || w.monitor == monitor)
  {
    ListedAreStops(workspaces, monitor, onAllMonitors);
    var valid := Listed(workspaces, Cycled(monitor, onAllMonitors));
    assert forall i :: 0 <= i < |valid| ==> valid[i] in valid;
  }

  // And each of them is the answer after some number of steps, in either direction.
  lemma {:induction false} CycleReachesAll(workspaces: seq<Workspace>, monitor: int, onAllMonitors: bool,
      active: Option<int>, w: Workspace)
    requires DistinctIds(workspaces) && w in workspaces && !w.special && (onAllMonitors || w.monitor == monitor)
    ensures Listed(workspaces, Cycled(monitor, onAllMonitors)) != []
    ensures exists n: nat :: Cycling(workspaces, monitor, onAllMonitors, active, Forward, n) == w.id
    ensures exists n: nat :: Cycling(workspaces, monitor, onAllMonitors, active, Backward, n) == w.id
  {
    var id := w.id;
    assert id in Stops(workspaces, monitor, onAllMonitors);
    var valid := Listed(workspaces, Cycled(monitor, onAllMonitors));
    ListedAreStops(workspaces, monitor, onAllMonitors);
    var n, m := StepsTo(valid, active.GetOr(1), id);
    assert Cycling(workspaces, monitor, onAllMonitors, active, Forward, n) == id;
    assert Cycling(workspaces, monitor, onAllMonitors, active, Backward, m) == id;
  }

  lemma {:induction false} StepsTo(valid: seq<int>, from: int, id: int) returns (n: nat, m: nat)
    requires Distinct(valid) && id in valid
    ensures Cycle(valid, from, n) == id && Cycle(valid, from, 0 - m) == id
  {
    CycleVisitsEachOnce(valid, from, id);
    n :| n < |valid| && Cycle(valid, from, n) == id;
    m := |valid| - n;
    TurnBack(|valid|, Position(valid, from) + n);
  }

  lemma {:induction false} TurnBack(k: int, x: int)
    requires k > 0
    ensures (x - k) % k == x % k
  {
    var q, r := x / k, x % k;
    assert x == q * k + r;
    assert (q - 1) * k == q * k - k;
    ModUnique(k, x - k, q - 1, r);
  }

  // One step forward: the next id above the active one, if that is among them; past the
  // last, or from elsewhere, the first.
  lemma {:induction false} CycleStep(workspaces: seq<Workspace>, monitor: int, onAllMonitors: bool,
      active: Option<int>, x: int)
    requires DistinctIds(workspaces) && x in Stops(workspaces, monitor, onAllMonitors)
    requires Listed(workspaces, Cycled(monitor, onAllMonitors)) != []
    ensures var stops := Stops(workspaces, monitor, onAllMonitors);
            var from := if active == None then 1 else active.value;
            var id := Cycling(workspaces, monitor, onAllMonitors, active, Forward, 1);
            if from in stops && id > from then x <= from || x >= id
            else x >= id && (from in stops ==> x <= from)
  {
    var valid := Listed(workspaces, Cycled(monitor, onAllMonitors));
    ListedAreStops(workspaces, monitor, onAllMonitors);
    StepInList(valid, active.GetOr(1), FirstIndex(valid, x));
  }

  lemma {:induction false} StepInList(valid: seq<int>, from: int, k: nat)
    requires Ascending(valid) && k < |valid|
    ensures var id := Cycle(valid, from, 1);
            if from in valid && id > from then valid[k] <= from || valid[k] >= id
            else valid[k] >= id && (from in valid ==> valid[k] <= from)
  {
    var i := Position(valid, from);
    if i + 1 < |valid| {
      ModUnique(|valid|, i + 1, 0, i + 1);
    } else {
      ModUnique(|valid|, i + 1, 1, 0);
    }
  }

  // m~N and e~N: the N-th id in ascending order, the first below that and the last above.
  lemma {:induction false} AbsoluteCycle(workspaces: seq<Workspace>, monitor: int, onAllMonitors: bool,
      active: Option<int>, n: int)
    requires DistinctIds(workspaces) && Listed(workspaces, Cycled(monitor, onAllMonitors)) != []
    ensures var stops := Stops(workspaces, monitor, onAllMonitors);
            var id := Cycling(workspaces, monitor, onAllMonitors, active, Absolute, n);
            |UpTo(stops, id)| == if n < 1 then 1 else if n > |stops| then |stops| else n
  {
    var valid, stops := Listed(workspaces, Cycled(monitor, onAllMonitors)), Stops(workspaces, monitor, onAllMonitors);
    ListedAreStops(workspaces, monitor, onAllMonitors);
    PlaceInList(valid, stops, Clamp(n - 1, 0, |valid| - 1));
  }

  // The ids up to this one.
  ghost function UpTo(ids: set<int>, id: int): set<int> {
    set x | x in ids && x <= id
  }

  lemma {:induction false} PlaceInList(valid: seq<int>, ids: set<int>, i: nat)
    requires Ascending(valid) && i < |valid| && forall x :: x in valid <==> x in ids
    ensures |UpTo(ids, valid[i])| == i + 1 && |ids| == |valid|
  {
    CountMembers(valid);
    CountMembers(valid[..i + 1]);
    assert forall x :: x in ids <==> x in Members(valid);
    assert ids == Members(valid);
    forall x
      ensures x in UpTo(ids, valid[i]) <==> x in Members(valid[..i + 1])
    {
      InPrefix(valid, i, x);
    }
    assert UpTo(ids, valid[i]) == Members(valid[..i + 1]);
  }

  lemma {:induction false} InPrefix(valid: seq<int>, i: nat, x: int)
    requires Ascending(valid) && i < |valid|
    ensures x in valid && x <= valid[i] <==> x in valid[..i + 1]
  {
    if x in valid {
      var j :| 0 <= j < |valid| && valid[j] == x;
    }
  }

  ghost function Members(s: seq<int>): set<int> {
    set x | x in s
  }

  lemma {:induction false} MembersSnoc(s: seq<int>, x: int)
    ensures Members(s + [x]) == Members(s) + {x}
  {
    assert forall y :: y in s + [x] <==> y in s || y == x;
  }

  lemma {:induction false} LastIsNew(s: seq<int>)
    requires Ascending(s) && s != []
    ensures s[|s| - 1] !in s[..|s| - 1] && s == s[..|s| - 1] + [s[|s| - 1]]
  {}

  lemma {:induction false} CountMembers(s: seq<int>)
    requires Ascending(s)
    ensures |Members(s)| == |s|
  {
    if s != [] {
      var before, last := s[..|s| - 1], s[|s| - 1];
      CountMembers(before);
      LastIsNew(s);
      MembersSnoc(before, last);
      assert last !in Members(before);
    }
  }

  // From a workspace that is not among them, a special one say, one step back skips the
  // last: the position counted back from is -1.
  lemma {:induction false} BackFromElsewhere(workspaces: seq<Workspace>, monitor: int, onAllMonitors: bool, active: int)
    requires DistinctIds(workspaces) && Listed(workspaces, Cycled(monitor, onAllMonitors)) != []
    requires active !in Stops(workspaces, monitor, onAllMonitors)
    ensures var stops := Stops(workspaces, monitor, onAllMonitors);
            var id := Cycling(workspaces, monitor, onAllMonitors, Some(active), Backward, 1);
            |stops| > 1 ==> |UpTo(stops, id)| == |stops| - 1
  {
    var valid, stops := Listed(workspaces, Cycled(monitor, onAllMonitors)), Stops(workspaces, monitor, onAllMonitors);
    ListedAreStops(workspaces, monitor, onAllMonitors);
    PlaceInList(valid, stops, 0);
    if |valid| > 1 {
      ModUnique(|valid|, -2, -1, |valid| - 2);
      PlaceInList(valid, stops, |valid| - 2);
    }
  }

  // ---------- empty ----------

  // A workspace with windows has the id, or ('m') a rule binds it away.
  ghost predicate IsTaken(workspaces: seq<Workspace>, rules: seq<WorkspaceRule>, monitor: int, sameMon: bool, id: int) {
    || (exists w :: w in workspaces && w.id == id && w.windows > 0)
    || (sameMon && IsBoundAway(rules, monitor, id))
  }

  // The first id above the start that is not taken, or -1 when it is not below LONG_MAX.
  lemma {:induction false} EmptyExact(workspaces: seq<Workspace>, rules: seq<WorkspaceRule>, monitor: int, active: int,
      sameMon: bool, next: bool)
    ensures var id := EmptyAnswer(workspaces, rules, monitor, active, sameMon, next);
            var start := if next then active else 0;
            || (&& start < id < 0x7fff_ffff_ffff_ffff && !IsTaken(workspaces, rules, monitor, sameMon, id)
                && forall x :: start < x < id ==> IsTaken(workspaces, rules, monitor, sameMon, x))
            || (id == -1 && forall x :: start < x < 0x7fff_ffff_ffff_ffff ==>
                  IsTaken(workspaces, rules, monitor, sameMon, x))
  {
    var taken := (if sameMon then BoundElsewhere(rules, monitor) else {}) + Occupied(workspaces);
    forall x
      ensures x in taken <==> IsTaken(workspaces, rules, monitor, sameMon, x)
    {
      ForbiddenMeans([], rules, monitor, x);
    }
  }
}
