// What the relative selectors mean: the predict-count-walk form of r+N and r-N
// against the plain enumeration of r~N, with the exact conditions under which
// they agree; and m/e stepping as addition modulo the number of workspaces.
module WorkspaceResolverProofs {
  import opened Common
  import opened WorkspaceOrder
  import opened WorkspaceResolver

  // ---------- r+N ----------

  // Guessing active + n and then walking past as many allowed ids as there were
  // forbidden ones on the way is counting n allowed ids one by one.
  lemma {:induction false} PredictionIsCorrected(inv: set<int>, active: int, n: nat)
    ensures NthAbove(inv, active + n, Forbidden(inv, active + 1, active + n)) == NthAbove(inv, active, n)
  {
    var missed := Forbidden(inv, active + 1, active + n);
    if n > 0 {
      var x := NthAbove(inv, active + n, missed);
      if missed == 0 {
        NoneForbidden(inv, active + 1, active + n);
      } else {
        NthAboveIsNth(inv, active + n, missed);
        FreeSplit(inv, active + 1, active + n, x);
      }
      NthAboveUnique(inv, active, n, x);
    }
  }

  // r+N is the N-th allowed id above the active one exactly when that id is below
  // the INT32_MAX cap or nothing was miscounted.
  lemma {:induction false} ForwardExact(inv: set<int>, named: seq<int>, active: int, n: nat)
    requires active >= 0
    ensures ForwardTarget(inv, named, active, n) == NthAbove(inv, active, n) <==>
            NthAbove(inv, active, n) < 0x7fff_ffff || Forbidden(inv, active + 1, active + n) == 0
  {
    PredictionIsCorrected(inv, active, n);
    NthAboveGrows(inv, active + n, 0, Forbidden(inv, active + 1, active + n));
  }

  // r+N from the active workspace is r~(rank(active) + N).
  lemma {:induction false} ForwardRefinesAbsolute(inv: set<int>, named: seq<int>, active: int, n: nat)
    requires active > 0 && active !in inv && NthAbove(inv, active, n) < INT32_MAX
    ensures ForwardTarget(inv, named, active, n) == Entry(inv, named, Rank(inv, named, active) + n)
  {
    ForwardExact(inv, named, active, n);
    EntryAtRank(inv, named, active);
    UpAdvancesRank(inv, named, active, n);
  }

  // ---------- r-N ----------

  // Walking down from the guess continues the count that the guess started.
  lemma {:induction false} GuessContinues(inv: set<int>, active: int, n: nat, extra: nat)
    requires 0 < active - n
    requires Forbidden(inv, active - n, active - 1) + extra <= Free(inv, 1, active - n - 1)
    ensures NthBelow(inv, active - n, Forbidden(inv, active - n, active - 1) + extra) ==
            NthBelow(inv, active, n + extra)
  {
    var guess, k := active - n, Forbidden(inv, active - n, active - 1) + extra;
    if n + extra > 0 {
      FreeSplit(inv, 1, guess - 1, active - 1);
      if k > 0 {
        NthBelowIsNth(inv, guess, k);
        FreeSplit(inv, NthBelow(inv, guess, k), guess - 1, active - 1);
      } else {
        ForbiddenEnds(inv, guess, active - 1);
      }
      NthBelowUnique(inv, active, n + extra, NthBelow(inv, guess, k));
    }
  }

  // Enough allowed ids below: the walk down stops at the N-th of them...
  lemma {:induction false} WalkFindsNthBelow(inv: set<int>, active: int, n: nat)
    requires active > 0 && active !in inv && n <= Free(inv, 1, active - 1)
    ensures Lowest(inv, active - n, Forbidden(inv, active - n, active)) == NthBelow(inv, active, n)
  {
    var guess := active - n;
    FreeSplit(inv, 1, guess - 1, active - 1);
    ForbiddenEnds(inv, guess, active);
    GuessContinues(inv, active, n, 0);
  }

  // ... and r-N is that id: the fallback is not entered.
  lemma {:induction false} BackwardCounts(inv: set<int>, named: seq<int>, active: int, n: nat)
    requires active > 0 && active !in inv && n <= Free(inv, 1, active - 1)
    ensures BackwardTarget(inv, named, active, n) == NthBelow(inv, active, n)
  {
    WalkFindsNthBelow(inv, active, n);
    if n > 0 {
      NthBelowIsNth(inv, active, n);
    }
  }

  // From a forbidden active workspace the active id itself is counted as one more
  // miss, so r-N goes one allowed id too far, while there is one.
  lemma {:induction false} BackwardOneTooFar(inv: set<int>, named: seq<int>, active: int, n: nat)
    requires active > 0 && active in inv && n < Free(inv, 1, active - 1)
    ensures BackwardTarget(inv, named, active, n) == NthBelow(inv, active, n + 1)
  {
    var guess := active - n;
    FreeSplit(inv, 1, guess - 1, active - 1);
    ForbiddenEnds(inv, guess, active);
    GuessContinues(inv, active, n, 1);
    NthBelowIsNth(inv, active, n + 1);
  }

  // The misses that are no fault of the guess: the active id, if it is forbidden.
  ghost function Extra(inv: set<int>, active: int): nat {
    if active in inv then 1 else 0
  }

  // The walk down runs out: it ends on 1 if that is allowed, and otherwise falls back
  // with this many steps left over.
  lemma {:induction false} RunsOut(inv: set<int>, named: seq<int>, active: int, n: nat)
    requires Free(inv, 1, active - 1) < n + Extra(inv, active) && n < active
    ensures BackwardTarget(inv, named, active, n) ==
            if 1 !in inv then 1
            else FallBack(inv, named, active - n, n + Extra(inv, active) - Free(inv, 1, active - 1))
  {
    var guess := active - n;
    FreeSplit(inv, 1, guess - 1, active - 1);
    ForbiddenEnds(inv, guess, active);
  }

  // The smallest allowed id stands at or below the guess.
  lemma {:induction false} LastBelow(inv: set<int>, active: int)
    requires active > 0
    ensures var n := Free(inv, 1, active - 1);
            0 < NthBelow(inv, active, n) <= active - n && (1 !in inv && active in inv ==> NthBelow(inv, active, n) == 1)
  {
    var n := Free(inv, 1, active - 1);
    if n > 0 {
      NthBelowIsNth(inv, active, n);
      if 1 !in inv {
        NthBelowUnique(inv, active, n, 1);
      }
    } else if active > 1 {
      FreeEnds(inv, 1, active - 1);
    }
  }

  // With at least N allowed ids below, r-N is right exactly when the active workspace
  // is not forbidden, or the walk happens to end on an allowed 1 that is the N-th.
  lemma {:induction false} BackwardExactWithin(inv: set<int>, named: seq<int>, active: int, n: nat)
    requires active > 0 && n <= Free(inv, 1, active - 1) && (forall x :: x in named ==> x < 0)
    requires named == [] ==> NextAllowed(inv, active) < INT32_MAX
    ensures BackwardTarget(inv, named, active, n) == NthBelow(inv, active, n) <==>
            active !in inv || (n == Free(inv, 1, active - 1) && 1 !in inv)
  {
    if active !in inv {
      BackwardCounts(inv, named, active, n);
    } else if n < Free(inv, 1, active - 1) {
      BackwardOneTooFar(inv, named, active, n);
      NthBelowIsNth(inv, active, n + 1);
      if n > 0 {
        NthBelowIsNth(inv, active, n);
      }
    } else {
      RunsOut(inv, named, active, n);
      LastBelow(inv, active);
      FallBackIsElsewhere(inv, named, active - n, active);
    }
  }

  // One step left over lands on the last named workspace or above the guess.
  lemma {:induction false} FallBackIsElsewhere(inv: set<int>, named: seq<int>, guess: int, active: int)
    requires 0 <= guess <= active && (forall x :: x in named ==> x < 0)
    requires named == [] ==> NextAllowed(inv, active) < INT32_MAX
    ensures FallBack(inv, named, guess, 1) < 0 || FallBack(inv, named, guess, 1) > guess
  {
    if named == [] {
      NextAllowedMonotone(inv, guess, active);
      assert NthAbove(inv, guess, 1) == NextAllowed(inv, NthAbove(inv, guess, 0));
    } else {
      assert named[|named| - 1] in named;
    }
  }

  lemma {:induction false} NextAllowedMonotone(inv: set<int>, lo: int, hi: int)
    requires lo <= hi
    ensures NextAllowed(inv, lo) <= NextAllowed(inv, hi)
  {
    assert !(lo < NextAllowed(inv, hi) < NextAllowed(inv, lo));
  }

  // ---------- Going up and down again ----------

  lemma {:induction false} BackwardUndoesForward(inv: set<int>, named: seq<int>, active: int, n: nat)
    requires active > 0 && active !in inv && NthAbove(inv, active, n) < INT32_MAX
    ensures BackwardTarget(inv, named, ForwardTarget(inv, named, active, n), n) == active
  {
    ForwardExact(inv, named, active, n);
    DownUndoesUp(inv, active, n);
    if n > 0 {
      var x := NthAbove(inv, active, n);
      NthAboveIsNth(inv, active, n);
      FreeSplit(inv, 1, active - 1, x - 1);
      FreeEnds(inv, active, x);
      FreeEnds(inv, active, x - 1);
    }
    BackwardCounts(inv, named, NthAbove(inv, active, n), n);
  }

  lemma {:induction false} ForwardUndoesBackward(inv: set<int>, named: seq<int>, active: int, n: nat)
    requires 0 < active < INT32_MAX && active !in inv && n <= Free(inv, 1, active - 1)
    ensures ForwardTarget(inv, named, BackwardTarget(inv, named, active, n), n) == active
  {
    BackwardCounts(inv, named, active, n);
    if n > 0 {
      NthBelowIsNth(inv, active, n);
    }
    UpUndoesDown(inv, active, n);
    ForwardExact(inv, named, NthBelow(inv, active, n), n);
  }

  // ---------- Falling back ----------

  lemma {:induction false} DescentIsAllowed(inv: set<int>, named: seq<int>, from: int, k: nat)
    requires from >= 0 && (named == [] ==> NextAllowed(inv, from) < INT32_MAX)
    ensures var t := Descend(inv, named, from, k); t in named || (t > 0 && t !in inv)
  {
    assert NthAbove(inv, from, 1) == NextAllowed(inv, NthAbove(inv, from, 0));
  }

  // From a positive id, r+N and r-N always land on a named workspace or on a positive id
  // that is not forbidden, the turn-around included, while the cap is out of reach.
  lemma {:induction false} LandsOnAllowed(inv: set<int>, named: seq<int>, active: int, jump: Jump, n: nat)
    requires active > 0 && n > 0 && !jump.Absolute?
    requires jump.Forward? ==> NthAbove(inv, active, n) < INT32_MAX
    requires jump.Backward? && named == [] ==> NextAllowed(inv, active) < INT32_MAX
    ensures var t := Target(inv, named, active, jump, n); t in named || (t > 0 && t !in inv)
  {
    if jump.Forward? {
      ForwardExact(inv, named, active, n);
      NthAboveIsNth(inv, active, n);
    } else {
      var guess := Max(active - n, 0);
      NextAllowedMonotone(inv, guess, active);
      DescentIsAllowed(inv, named, guess, Forbidden(inv, guess, active));
    }
  }

  // Without named workspaces and with too few allowed ids below: where the walk down
  // ends up.
  lemma {:induction false} TurnAround(inv: set<int>, active: int, n: nat)
    requires active > 0 && Free(inv, 1, active - 1) < n + Extra(inv, active) && NextAllowed(inv, active) < INT32_MAX
    ensures BackwardTarget(inv, [], active, n) ==
            if n < active && 1 !in inv then 1 else NextAllowed(inv, Max(active - n, 0))
  {
    var guess := Max(active - n, 0);
    assert NthAbove(inv, guess, 1) == NextAllowed(inv, NthAbove(inv, guess, 0));
    NextAllowedMonotone(inv, guess, active);
    if n < active {
      RunsOut(inv, [], active, n);
    }
  }

  lemma {:induction false} SmallestAbove(inv: set<int>, id: int)
    requires id >= 0
    ensures NextAllowed(inv, id) == NextAllowed(inv, 0) <==> forall x :: 0 < x <= id ==> x in inv
  {}

  // The turn-around reaches the smallest allowed id exactly under this condition: ids
  // below the guess may be allowed, and then they are skipped.
  lemma {:induction false} TurnAroundExact(inv: set<int>, active: int, n: nat)
    requires active > 0 && Free(inv, 1, active - 1) < n + Extra(inv, active) && NextAllowed(inv, active) < INT32_MAX
    ensures BackwardTarget(inv, [], active, n) == NextAllowed(inv, 0) <==>
            n >= active || 1 !in inv || forall x :: 0 < x <= active - n ==> x in inv
  {
    TurnAround(inv, active, n);
    if n < active {
      SmallestAbove(inv, active - n);
      if 1 !in inv {
        NextAllowedUnique(inv, 0, 1);
      }
    }
  }

  // r-N at the lower end: when do fewer than N allowed ids below the active one
  // still lead to the right entry of the combined order?
  ghost predicate FallBackIsRight(inv: set<int>, active: int, n: nat) {
    || (1 in inv && n < active)
    || (n == active && (0 in inv || Forbidden(inv, 1, active - 1) == 0))
  }

  // n < active: the guess stays positive, and only a forbidden id 1 lets the code
  // notice that it ran out.
  lemma {:induction false} FallBackFromPositiveGuess(inv: set<int>, named: seq<int>, active: int, n: nat)
    requires named != [] && n < active
    requires 1 <= n + Extra(inv, active) - Free(inv, 1, active - 1) <= |named|
    ensures 1 in inv ==>
            BackwardTarget(inv, named, active, n) ==
            named[|named| - (n + Extra(inv, active) - Free(inv, 1, active - 1))]
    ensures 1 !in inv ==> BackwardTarget(inv, named, active, n) == 1
  {
    RunsOut(inv, named, active, n);
  }

  // n >= active: the guess is clamped to 0 and forgets how far below it was.
  lemma {:induction false} FallBackFromZero(inv: set<int>, named: seq<int>, active: int, n: nat)
    requires named != [] && 0 < active <= n
    ensures BackwardTarget(inv, named, active, n) == FallBack(inv, named, 0, LeftFromZero(inv, active))
  {
    ForbiddenEnds(inv, 0, active);
    ForbiddenEnds(inv, 0, active - 1);
  }

  // What is left over there: the forbidden ids from 0 up to the active one.
  ghost function LeftFromZero(inv: set<int>, active: int): nat
    requires active > 0
  {
    Extra(inv, 0) + (active - 1 - Free(inv, 1, active - 1)) + Extra(inv, active)
  }

  lemma {:induction false} AscendingDistinct(named: seq<int>, i: nat, j: nat)
    requires Ascending(named) && i < |named| && j < |named|
    ensures named[i] == named[j] <==> i == j
  {}

  // r-N reaches the entry N places before the active one, for every N that has
  // such an entry, exactly under this condition.
  lemma {:induction false} BackwardExact(inv: set<int>, named: seq<int>, active: int, n: nat)
    requires Ascending(named) && (forall x :: x in named ==> x < 0)
    requires active > 0 && active !in inv && 0 < n < Rank(inv, named, active)
    ensures BackwardTarget(inv, named, active, n) == Entry(inv, named, Rank(inv, named, active) - n) <==>
            n <= Free(inv, 1, active - 1) || FallBackIsRight(inv, active, n)
  {
    var below := Free(inv, 1, active - 1);
    FreeEnds(inv, 1, active);
    if n <= below {
      BackwardCounts(inv, named, active, n);
      DownLowersRank(inv, named, active, n);
    } else {
      assert Entry(inv, named, Rank(inv, named, active) - n) == named[|named| - (n - below)];
      if n < active {
        FallBackFromPositiveGuess(inv, named, active, n);
        assert named[|named| - (n - below)] in named;
      } else {
        FallBackFromZero(inv, named, active, n);
        var left := LeftFromZero(inv, active);
        var landed := if 1 <= left <= |named| then |named| - left else |named| - 1;
        AscendingDistinct(named, landed, |named| - (n - below));
      }
    }
  }

  // The n-th allowed id below, by its place in the combined order; the active id need
  // not be allowed itself.
  lemma {:induction false} BelowAtRank(inv: set<int>, named: seq<int>, active: int, n: nat)
    requires active > 0 && 0 < n <= Free(inv, 1, active - 1)
    ensures NthBelow(inv, active, n) == Entry(inv, named, |named| + Free(inv, 1, active - 1) + 1 - n)
  {
    var x := NthBelow(inv, active, n);
    NthBelowIsNth(inv, active, n);
    FreeSplit(inv, 1, x, active - 1);
    FreeEnds(inv, x, active - 1);
    EntryAtRank(inv, named, x);
  }

  // From a forbidden active workspace the entries below are one nearer than the code
  // counts, so only coincidences at the ends are right.
  ghost predicate ForbiddenIsRight(inv: set<int>, named: nat, active: int, n: nat)
    requires active > 0
  {
    var below := Free(inv, 1, active - 1);
    if n <= below then n == below && 1 !in inv
    else if n < active then 1 in inv && named == 1
    else n == active + Extra(inv, 0) || (n == active && 0 in inv && below == active - 1 && named == 1)
  }

  lemma {:induction false} BackwardExactFromForbidden(inv: set<int>, named: seq<int>, active: int, n: nat)
    requires Ascending(named) && (forall x :: x in named ==> x < 0)
    requires active > 0 && active in inv && 0 < n <= |named| + Free(inv, 1, active - 1)
    requires named == [] ==> NextAllowed(inv, active) < INT32_MAX
    ensures BackwardTarget(inv, named, active, n) == Entry(inv, named, |named| + Free(inv, 1, active - 1) + 1 - n) <==>
            ForbiddenIsRight(inv, |named|, active, n)
  {
    var below := Free(inv, 1, active - 1);
    if n <= below {
      BelowAtRank(inv, named, active, n);
      BackwardExactWithin(inv, named, active, n);
    } else {
      var wanted := |named| - (n - below);
      assert Entry(inv, named, |named| + below + 1 - n) == named[wanted];
      if n < active {
        RunsOut(inv, named, active, n);
        assert named[wanted] in named;
        AscendingDistinct(named, if wanted > 0 then wanted - 1 else |named| - 1, wanted);
      } else {
        FallBackFromZero(inv, named, active, n);
        var left := LeftFromZero(inv, active);
        AscendingDistinct(named, if left <= |named| then |named| - left else |named| - 1, wanted);
      }
    }
  }

  // ---------- From a named workspace ----------

  lemma {:induction false} FoundIndex(named: seq<int>, i: nat)
    requires Ascending(named) && i < |named|
    ensures ItemOf(named, named[i]) == i
  {
    FirstIndexIs(named, named[i], i);
  }

  // While the named workspaces last, r+N steps through them.
  lemma {:induction false} ForwardAmongNamed(inv: set<int>, named: seq<int>, i: nat, n: nat)
    requires Ascending(named) && (forall x :: x in named ==> x < 0)
    requires i + n < |named| <= INT64_MAX
    ensures ForwardTarget(inv, named, named[i], n) == Entry(inv, named, i + 1 + n)
  {
    FoundIndex(named, i);
    assert named[i] in named;
  }

  lemma {:induction false} ForwardPastSeam(inv: set<int>, named: seq<int>, i: nat, n: nat)
    requires Ascending(named) && (forall x :: x in named ==> x < 0)
    requires i < |named| <= INT64_MAX && |named| <= i + n && n <= INT32_MAX
    ensures var past := i + n - |named| + 1;
            ForwardTarget(inv, named, named[i], n) ==
            CappedWalk(inv, past, Forbidden(inv, named[i] + 1, Max(named[i] + n, 0)) + Forbidden(inv, 1, past))
  {
    FoundIndex(named, i);
    assert named[i] in named;
    assert PastSeam(named, i + n) == i + n - |named| + 1;
  }

  // No forbidden id between the active named workspace and the naive guess.
  ghost predicate ClearAhead(inv: set<int>, active: int, n: nat) {
    forall x :: active < x <= Max(active + n, 0) ==> x !in inv
  }

  ghost function StaleCount(inv: set<int>, active: int, n: nat): (c: nat)
    ensures c == 0 <==> ClearAhead(inv, active, n)
  {
    NoneForbidden(inv, active + 1, Max(active + n, 0));
    Forbidden(inv, active + 1, Max(active + n, 0))
  }

  // Past the seam, the forbidden ids counted before the seam was noticed are still
  // counted, so r+N agrees with r~ exactly when there were none.
  lemma {:induction false} ForwardAcrossSeam(inv: set<int>, named: seq<int>, i: nat, n: nat)
    requires Ascending(named) && (forall x :: x in named ==> x < 0)
    requires i < |named| <= INT64_MAX && |named| <= i + n && n <= INT32_MAX
    requires NthAbove(inv, Entry(inv, named, i + 1 + n), StaleCount(inv, named[i], n)) < INT32_MAX
    ensures ForwardTarget(inv, named, named[i], n) == Entry(inv, named, i + 1 + n) <==>
            ClearAhead(inv, named[i], n)
  {
    var past := i + n - |named| + 1;
    var stale := StaleCount(inv, named[i], n);
    ForwardPastSeam(inv, named, i, n);
    PredictionIsCorrected(inv, 0, past);
    StaleCountOvershoots(inv, past, Forbidden(inv, 1, past), stale);
  }

  lemma {:induction false} StaleCountOvershoots(inv: set<int>, from: int, honest: nat, stale: nat)
    requires NthAbove(inv, NthAbove(inv, from, honest), stale) < INT32_MAX
    ensures CappedWalk(inv, from, honest + stale) == NthAbove(inv, from, honest) <==> stale == 0
  {
    NthAboveCompose(inv, from, honest, stale);
    NthAboveGrows(inv, NthAbove(inv, from, honest), 0, stale);
  }

  // From a negative id that is not among the named ones, r+N counts from before the first.
  lemma {:induction false} ForwardFromUnlisted(inv: set<int>, named: seq<int>, active: int, n: nat)
    requires active < 0 && active !in named && 1 <= n <= |named| <= INT64_MAX
    ensures ForwardTarget(inv, named, active, n) == Entry(inv, named, n)
  {
    assert AsSize(ItemOf(named, active) + n) == n - 1;
  }

  // r-N from a named workspace is never N steps back: with at least N named
  // workspaces before it, the result is always the last named one...
  lemma {:induction false} BackwardAmongNamed(inv: set<int>, named: seq<int>, i: nat, n: nat)
    requires Ascending(named) && (forall x :: x in named ==> x < 0)
    requires i < |named| <= INT64_MAX && 0 < n <= i
    ensures BackwardTarget(inv, named, named[i], n) == named[|named| - 1] != Entry(inv, named, i + 1 - n)
  {
    FoundIndex(named, i);
    assert named[i] in named;
    assert named[i - n] in named;
    assert named[|named| - 1] in named;
  }

  // ... and with fewer, an index that wrapped around becomes a negative "id".
  lemma {:induction false} BackwardOffNamed(inv: set<int>, named: seq<int>, i: nat, n: nat)
    requires Ascending(named) && (forall x :: x in named ==> x < 0)
    requires i < |named| <= INT64_MAX - INT32_MAX && i < n <= INT32_MAX
    ensures BackwardTarget(inv, named, named[i], n) == i - n - |named| + 1 < 0
  {
    FoundIndex(named, i);
    assert named[i] in named;
    var item := AsSize(i - n);
    assert item == SIZE_T + i - n;
    assert PastSeam(named, item) == i - n - |named| + 1;
  }

  // With a single named workspace, r-1 from it resolves to WORKSPACE_INVALID.
  lemma {:induction false} BackwardFromOnlyNamed(inv: set<int>, id: int)
    requires id < 0
    ensures BackwardTarget(inv, [id], id, 1) == -1
  {
    BackwardOffNamed(inv, [id], 0, 1);
  }

  // ---------- Where the conditions above fail ----------

  lemma {:induction false} FirstIsLeast(s: seq<int>, x: int)
    requires Ascending(s) && s != []
    ensures x in s[1..] <==> x in s && x != s[0]
    ensures s[0] in s && (x in s ==> s[0] <= x)
  {}

  lemma {:induction false} AscendingUnique(s: seq<int>, t: seq<int>)
    requires Ascending(s) && Ascending(t) && |s| == |t| && forall x :: x in s <==> x in t
    ensures s == t
  {
    if s != [] {
      FirstIsLeast(s, t[0]);
      FirstIsLeast(t, s[0]);
      forall x
        ensures x in s[1..] <==> x in t[1..]
      {
        FirstIsLeast(s, x);
        FirstIsLeast(t, x);
      }
      AscendingUnique(s[1..], t[1..]);
      assert s == [s[0]] + s[1..] && t == [t[0]] + t[1..];
    }
  }

  lemma {:induction false} CollectsNamed(workspaces: seq<Workspace>, named: seq<int>)
    requires DistinctIds(workspaces) && Ascending(named)
    requires named == IdsWhere(workspaces, NamedHere(0))
    ensures Listed(workspaces, NamedHere(0)) == named
  {
    var listed := Listed(workspaces, NamedHere(0));
    forall id
      ensures id in listed <==> id in named
    {
      IdsWhereKept(workspaces, NamedHere(0), id);
    }
    AscendingUnique(listed, named);
  }

  function IdWhere(w: Workspace, keep: Workspace -> bool): seq<int> {
    if keep(w) then [w.id] else []
  }

  lemma {:induction false} IdsWhereSnoc(before: seq<Workspace>, last: Workspace, keep: Workspace -> bool)
    ensures IdsWhere(before + [last], keep) == IdsWhere(before, keep) + IdWhere(last, keep)
  {
    assert (before + [last])[..|before|] == before;
  }

  lemma {:induction false} IdsOfThree(a: Workspace, b: Workspace, c: Workspace, keep: Workspace -> bool)
    ensures IdsWhere([a, b], keep) == IdWhere(a, keep) + IdWhere(b, keep)
    ensures IdsWhere([a, b, c], keep) == IdWhere(a, keep) + IdWhere(b, keep) + IdWhere(c, keep)
  {
    IdsWhereSnoc([], a, keep);
    IdsWhereSnoc([a], b, keep);
    IdsWhereSnoc([a, b], c, keep);
    assert [] + [a] == [a] && [a] + [b] == [a, b] && [a, b] + [c] == [a, b, c];
  }

  // BackwardExact: from workspace 1 above two named ones, two places back is the first
  // of them, but r-2 gives the second.
  lemma {:induction false} StepsBackTooFew(workspaces: seq<Workspace>, inv: set<int>, named: seq<int>)
    requires workspaces ==
             [Workspace(-1338, false, 0, 1), Workspace(-1337, false, 0, 1), Workspace(1, false, 0, 1)]
    requires inv == ForbiddenIds(workspaces, [], 0) && named == Listed(workspaces, NamedHere(0))
    ensures Entry(inv, named, Rank(inv, named, 1) - 2) == -1338 && Target(inv, named, 1, Backward, 2) == -1337
  {
    AllHere(workspaces);
    TwoNamed(workspaces);
    StepsBackFromOne(inv, named);
  }

  lemma {:induction false} TwoNamed(workspaces: seq<Workspace>)
    requires workspaces ==
             [Workspace(-1338, false, 0, 1), Workspace(-1337, false, 0, 1), Workspace(1, false, 0, 1)]
    ensures Listed(workspaces, NamedHere(0)) == [-1338, -1337]
  {
    IdsOfThree(workspaces[0], workspaces[1], workspaces[2], NamedHere(0));
    CollectsNamed(workspaces, [-1338, -1337]);
  }

  lemma {:induction false} AllHere(workspaces: seq<Workspace>)
    requires forall i :: 0 <= i < |workspaces| ==> !workspaces[i].special && workspaces[i].monitor == 0
    ensures ForbiddenIds(workspaces, [], 0) == {}
  {}

  lemma {:induction false} StepsBackFromOne(inv: set<int>, named: seq<int>)
    requires named == [-1338, -1337] && forall x :: x !in inv
    ensures Entry(inv, named, Rank(inv, named, 1) - 2) == -1338 && BackwardTarget(inv, named, 1, 2) == -1337
  {
    NoneForbidden(inv, 1, 1);
    NoneForbidden(inv, 1, 0);
    FallBackFromZero(inv, named, 1, 2);
  }

  // TurnAroundExact: with 1 and 4 elsewhere, r-3 from 5 turns around at 2 and gives 3,
  // although 2 is allowed.
  lemma {:induction false} TurnsAroundTooHigh(workspaces: seq<Workspace>, inv: set<int>, named: seq<int>)
    requires workspaces == [Workspace(1, false, 1, 1), Workspace(4, false, 1, 1), Workspace(5, false, 0, 1)]
    requires inv == ForbiddenIds(workspaces, [], 0) && named == Listed(workspaces, NamedHere(0))
    ensures NextAllowed(inv, 0) == 2 && Target(inv, named, 5, Backward, 3) == 3
  {
    IdsOfThree(workspaces[0], workspaces[1], workspaces[2], NamedHere(0));
    CollectsNamed(workspaces, []);
    assert workspaces[0] in workspaces && workspaces[1] in workspaces;
    TurnsAroundAtTwo(inv);
  }

  lemma {:induction false} TurnsAroundAtTwo(inv: set<int>)
    requires forall x :: x in inv <==> x == 1 || x == 4
    ensures NextAllowed(inv, 0) == 2 && BackwardTarget(inv, [], 5, 3) == 3
  {
    NextAllowedUnique(inv, 0, 2);
    NextAllowedUnique(inv, 2, 3);
    NextAllowedUnique(inv, 5, 6);
    FreeSplit(inv, 1, 1, 4);
    FreeSplit(inv, 2, 3, 4);
    FreeEnds(inv, 1, 1);
    FreeEnds(inv, 4, 4);
    TurnAround(inv, 5, 3);
  }

  // ForwardAcrossSeam: a special workspace lies between the named one and the naive
  // guess, so r+1 passes over the free workspace 1.
  lemma {:induction false} SeamOvershoots(workspaces: seq<Workspace>, inv: set<int>, named: seq<int>)
    requires workspaces == [Workspace(-1337, false, 0, 1), Workspace(-99, true, 0, 1)]
    requires inv == ForbiddenIds(workspaces, [], 0) && named == Listed(workspaces, NamedHere(0))
    ensures Entry(inv, named, 2) == 1 && Target(inv, named, -1337, Forward, 1) == 2
  {
    IdsOfThree(workspaces[0], workspaces[1], workspaces[1], NamedHere(0));
    CollectsNamed(workspaces, [-1337]);
    assert workspaces[0] in workspaces && workspaces[1] in workspaces;
    SeamAtOne(inv, named);
  }

  lemma {:induction false} SeamAtOne(inv: set<int>, named: seq<int>)
    requires named == [-1337] && forall x :: x in inv <==> x == -99
    ensures Entry(inv, named, 2) == 1 && ForwardTarget(inv, named, -1337, 1) == 2
  {
    NextAllowedUnique(inv, 0, 1);
    NextAllowedUnique(inv, 1, 2);
    assert NthAbove(inv, 0, 1) == NextAllowed(inv, NthAbove(inv, 0, 0));
    assert NthAbove(inv, 1, 1) == NextAllowed(inv, NthAbove(inv, 1, 0));
    ForbiddenSplit(inv, -1336, -99, 0);
    ForbiddenEnds(inv, -1336, -99);
    NoneForbidden(inv, -1336, -100);
    NoneForbidden(inv, -98, 0);
    NoneForbidden(inv, 1, 1);
    ForwardPastSeam(inv, named, 0, 1);
  }

  // BackwardExactWithin: a rule binds the shown workspace 3 elsewhere. r-1 then gives 1
  // and not 2; r-2 gives 1 as well, which is right.
  lemma {:induction false} ForbiddenStartMisses(workspaces: seq<Workspace>, rules: seq<WorkspaceRule>, inv: set<int>,
      named: seq<int>)
    requires workspaces == [Workspace(3, false, 0, 1)] && rules == [WorkspaceRule(true, Some(1), 3)]
    requires inv == ForbiddenIds(workspaces, rules, 0) && named == Listed(workspaces, NamedHere(0))
    ensures NthBelow(inv, 3, 1) == 2 && Target(inv, named, 3, Backward, 1) == 1
    ensures NthBelow(inv, 3, 2) == 1 && Target(inv, named, 3, Backward, 2) == 1
  {
    assert workspaces[..0] == [];
    CollectsNamed(workspaces, []);
    assert rules[0] in rules;
    MissesFromThree(inv);
  }

  lemma {:induction false} MissesFromThree(inv: set<int>)
    requires forall x :: x in inv <==> x == 3
    ensures NthBelow(inv, 3, 1) == 2 && BackwardTarget(inv, [], 3, 1) == 1
    ensures NthBelow(inv, 3, 2) == 1 && BackwardTarget(inv, [], 3, 2) == 1
  {
    NoneForbidden(inv, 1, 2);
    NoneForbidden(inv, 2, 2);
    NthBelowUnique(inv, 3, 1, 2);
    NthBelowUnique(inv, 3, 2, 1);
    NextAllowedUnique(inv, 3, 4);
    BackwardOneTooFar(inv, [], 3, 1);
    BackwardExactWithin(inv, [], 3, 2);
  }

  // ---------- r~N ----------

  // r~N lists every named workspace and every allowed positive id exactly once,
  // in ascending order.
  lemma {:induction false} AbsoluteEnumerates(inv: set<int>, named: seq<int>, id: int)
    requires Ascending(named) && (forall x :: x in named ==> x < 0)
    ensures (exists n :: n >= 1 && Entry(inv, named, n) == id) <==>
            id in named || (id > 0 && id !in inv)
  {
    if id in named {
      assert Entry(inv, named, FirstIndex(named, id) + 1) == id;
    } else if id > 0 && id !in inv {
      EntryAtRank(inv, named, id);
      assert Entry(inv, named, Rank(inv, named, id)) == id;
    }
    forall n | n >= 1 && Entry(inv, named, n) == id
      ensures id in named || (id > 0 && id !in inv)
    {
      EntriesAreAllowed(inv, named, n);
    }
  }

  lemma {:induction false} AbsoluteAscends(inv: set<int>, named: seq<int>, m: int, n: int)
    requires Ascending(named) && (forall x :: x in named ==> x < 0)
    requires 1 <= m < n
    ensures Entry(inv, named, m) < Entry(inv, named, n)
  {
    EntriesAscend(inv, named, m, n);
  }

  // ---------- empty ----------

  // The search passes no more ids than are taken, so with fewer than INT64_MAX of them
  // it always succeeds.
  lemma {:induction false} EmptyIsNear(taken: set<int>, start: int)
    ensures start < NextAllowed(taken, start) <= start + 1 + |taken|
    ensures start + 1 + |taken| < 0x7fff_ffff_ffff_ffff ==> EmptyTarget(taken, start) == NextAllowed(taken, start)
  {
    var found := NextAllowed(taken, start);
    AllForbiddenCount(taken, start + 1, found - 1);
    FewInSpan(taken, start + 1, found - 1);
  }

  // While there are fewer than INT64_MAX of them, "empty" finds a positive id exactly
  // when every id from its start up to 0 is taken: always from 0.
  lemma {:induction false} EmptyIsPositive(taken: set<int>, start: int)
    ensures EmptyTarget(taken, start) > 0 <==>
            && (forall x :: start < x <= 0 ==> x in taken)
            && (exists x :: Max(start, 0) < x < INT64_MAX && x !in taken)
    ensures start + 1 + |taken| < INT64_MAX ==>
            (EmptyTarget(taken, start) > 0 <==> forall x :: start < x <= 0 ==> x in taken)
  {
    EmptyIsNear(taken, start);
  }

  // From a named workspace "empty" with 'n' starts at that id, and stops at a negative
  // number that no workspace has.
  lemma {:induction false} EmptyStopsBelowZero(workspaces: seq<Workspace>, taken: set<int>)
    requires workspaces == [Workspace(-1337, false, 0, 1)]
    requires taken == BoundElsewhere([], 0) + Occupied(workspaces)
    ensures EmptyTarget(taken, -1337) == -1336 && !exists w :: w in workspaces && w.id == -1336
  {
    NextAllowedUnique(taken, -1337, -1336);
  }

  // ---------- m and e ----------

  lemma {:induction false} PositionOf(valid: seq<int>, i: nat)
    requires Distinct(valid) && i < |valid|
    ensures Position(valid, valid[i]) == i
  {
    FirstIndexIs(valid, valid[i], i);
  }

  lemma {:induction false} AddModulo(k: int, x: int, y: int)
    requires k > 0
    ensures (x % k + y) % k == (x + y) % k
  {
    var r := (x % k + y) % k;
    var q := (x % k + y) / k;
    assert x == x / k * k + x % k;
    assert (q + x / k) * k == q * k + x / k * k;
    ModUnique(k, x + y, q + x / k, r);
  }

  // Steps add up; m-N is therefore the inverse of m+N.
  lemma {:induction false} CycleComposes(valid: seq<int>, active: int, m: int, n: int)
    requires valid != [] && Distinct(valid)
    ensures Cycle(valid, Cycle(valid, active, m), n) == Cycle(valid, active, m + n)
  {
    var i := Position(valid, active);
    PositionOf(valid, (i + m) % |valid|);
    AddModulo(|valid|, i + m, n);
  }

  lemma {:induction false} CycleInverse(valid: seq<int>, active: int, n: int)
    requires Distinct(valid) && active in valid
    ensures Cycle(valid, Cycle(valid, active, n), -n) == active
  {
    CycleComposes(valid, active, n, -n);
    ModUnique(|valid|, Position(valid, active), 0, Position(valid, active));
  }

  // |valid| consecutive steps visit every workspace exactly once.
  lemma {:induction false} CycleVisitsEachOnce(valid: seq<int>, active: int, id: int)
    requires Distinct(valid) && id in valid
    ensures exists n :: 0 <= n < |valid| && Cycle(valid, active, n) == id
    ensures forall m, n :: 0 <= m < n < |valid| ==> Cycle(valid, active, m) != Cycle(valid, active, n)
  {
    var k, i, j := |valid|, Position(valid, active), Position(valid, id);
    var n := (j - i) % k;
    AddModulo(k, j - i, i);
    ModUnique(k, j, 0, j);
    assert Cycle(valid, active, n) == id;
    forall m, n | 0 <= m < n < k
      ensures Cycle(valid, active, m) != Cycle(valid, active, n)
    {
      DifferentRemainders(k, i + m, i + n);
    }
  }

  lemma {:induction false} DifferentRemainders(k: int, x: int, y: int)
    requires x < y < x + k
    ensures x % k != y % k
  {
    if x % k == y % k {
      assert y - x == (y / k - x / k) * k;
      ModUnique(k, y - x, y / k - x / k, 0);
      ModUnique(k, y - x, 0, y - x);
      assert false;
    }
  }
}
