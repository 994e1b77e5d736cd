// The order in which relative workspace selectors count: first the named
// workspaces (negative ids, ascending), then every positive id that is not
// forbidden. This file holds only the order itself, as plain mathematics: it is
// the reference that the loops in WorkspaceResolver.dfy are proved against.
module WorkspaceOrder {

  // ---------- Counting in an interval ----------

  function Span(lo: int, hi: int): nat {
    if hi < lo then 0 else hi - lo + 1
  }

  ghost function ForbiddenIn(inv: set<int>, lo: int, hi: int): set<int> {
    set x | x in inv && lo <= x <= hi
  }

  // How many ids in lo..hi are forbidden.
  ghost function Forbidden(inv: set<int>, lo: int, hi: int): (n: nat)
    ensures n <= Span(lo, hi)
  {
    ForbiddenFits(inv, lo, hi);
    |ForbiddenIn(inv, lo, hi)|
  }

  // How many ids in lo..hi are allowed.
  ghost function Free(inv: set<int>, lo: int, hi: int): nat {
    Span(lo, hi) - Forbidden(inv, lo, hi)
  }

  lemma {:induction false} ForbiddenFits(inv: set<int>, lo: int, hi: int)
    ensures |ForbiddenIn(inv, lo, hi)| <= Span(lo, hi)
    decreases Span(lo, hi)
  {
    if hi < lo {
      assert ForbiddenIn(inv, lo, hi) == {};
    } else {
      ForbiddenFits(inv, lo, hi - 1);
      assert ForbiddenIn(inv, lo, hi) <= ForbiddenIn(inv, lo, hi - 1) + {hi};
      assert ForbiddenIn(inv, lo, hi) == ForbiddenIn(inv, lo, hi - 1) + ForbiddenIn(inv, hi, hi);
      assert ForbiddenIn(inv, hi, hi) == if hi in inv then {hi} else {};
    }
  }

  lemma {:induction false} ForbiddenSplit(inv: set<int>, lo: int, mid: int, hi: int)
    requires lo - 1 <= mid <= hi
    ensures Forbidden(inv, lo, hi) == Forbidden(inv, lo, mid) + Forbidden(inv, mid + 1, hi)
  {
    assert ForbiddenIn(inv, lo, hi) == ForbiddenIn(inv, lo, mid) + ForbiddenIn(inv, mid + 1, hi);
  }

  lemma {:induction false} ForbiddenOne(inv: set<int>, id: int)
    ensures Forbidden(inv, id, id) == if id in inv then 1 else 0
  {
    assert ForbiddenIn(inv, id, id) == if id in inv then {id} else {};
  }

  // Splitting off the first or the last id of an interval.
  lemma {:induction false} ForbiddenEnds(inv: set<int>, lo: int, hi: int)
    requires lo <= hi
    ensures Forbidden(inv, lo, hi) == Forbidden(inv, lo, hi - 1) + if hi in inv then 1 else 0
    ensures Forbidden(inv, lo, hi) == Forbidden(inv, lo + 1, hi) + if lo in inv then 1 else 0
  {
    ForbiddenSplit(inv, lo, hi - 1, hi);
    ForbiddenSplit(inv, lo, lo, hi);
    ForbiddenOne(inv, lo);
    ForbiddenOne(inv, hi);
  }

  lemma {:induction false} FreeSplit(inv: set<int>, lo: int, mid: int, hi: int)
    requires lo - 1 <= mid <= hi
    ensures Free(inv, lo, hi) == Free(inv, lo, mid) + Free(inv, mid + 1, hi)
  {
    ForbiddenSplit(inv, lo, mid, hi);
  }

  lemma {:induction false} FreeEnds(inv: set<int>, lo: int, hi: int)
    requires lo <= hi
    ensures Free(inv, lo, hi) == Free(inv, lo, hi - 1) + if hi in inv then 0 else 1
    ensures Free(inv, lo, hi) == Free(inv, lo + 1, hi) + if lo in inv then 0 else 1
  {
    ForbiddenEnds(inv, lo, hi);
  }

  // An interval with no forbidden id counts zero.
  lemma {:induction false} NoneForbidden(inv: set<int>, lo: int, hi: int)
    ensures Forbidden(inv, lo, hi) == 0 <==> forall x :: lo <= x <= hi ==> x !in inv
  {
    assert (forall x :: lo <= x <= hi ==> x !in inv) ==> ForbiddenIn(inv, lo, hi) == {};
    assert Forbidden(inv, lo, hi) == 0 ==> ForbiddenIn(inv, lo, hi) == {};
    assert forall x :: lo <= x <= hi && x in inv ==> x in ForbiddenIn(inv, lo, hi);
  }

  // ---------- Counting up ----------

  function Above(inv: set<int>, id: int): set<int> {
    set x | x in inv && x > id
  }

  // The forbidden ids still ahead: the measure that makes an upward walk end.
  ghost function Ahead(inv: set<int>, id: int): nat {
    |Above(inv, id)|
  }

  lemma {:induction false} AboveShrinks(inv: set<int>, id: int)
    requires id + 1 in inv
    ensures Ahead(inv, id + 1) < Ahead(inv, id)
  {
    assert Above(inv, id) == Above(inv, id + 1) + {id + 1};
  }

  ghost predicate IsNext(inv: set<int>, id: int, r: int) {
    r > id && r !in inv && forall x :: id < x < r ==> x in inv
  }

  // There is one because `inv` is finite.
  lemma {:induction false} NextExists(inv: set<int>, id: int)
    ensures exists r :: IsNext(inv, id, r)
    decreases Ahead(inv, id)
  {
    if id + 1 in inv {
      AboveShrinks(inv, id);
      NextExists(inv, id + 1);
      var r :| IsNext(inv, id + 1, r);
      assert IsNext(inv, id, r);
    } else {
      assert IsNext(inv, id, id + 1);
    }
  }

  // The least allowed id above `id`.
  ghost function NextAllowed(inv: set<int>, id: int): (r: int)
    ensures IsNext(inv, id, r)
  {
    NextExists(inv, id);
    var r :| IsNext(inv, id, r);
    r
  }

  lemma {:induction false} NextAllowedUnique(inv: set<int>, id: int, r: int)
    requires IsNext(inv, id, r)
    ensures r == NextAllowed(inv, id)
  {
    assert !(id < NextAllowed(inv, id) < r);
  }

  // The n-th allowed id above `id`.
  ghost function NthAbove(inv: set<int>, id: int, n: nat): int {
    if n == 0 then id else NextAllowed(inv, NthAbove(inv, id, n - 1))
  }

  // One step of a walk: passing a forbidden id costs nothing, passing an allowed
  // id uses up one count.
  lemma {:induction false} NthAboveStep(inv: set<int>, id: int, n: nat)
    requires n > 0
    ensures NthAbove(inv, id, n) == NthAbove(inv, id + 1, if id + 1 in inv then n else n - 1)
  {
    if n == 1 {
      assert NthAbove(inv, id, 1) == NextAllowed(inv, NthAbove(inv, id, 0));
      assert NthAbove(inv, id + 1, 1) == NextAllowed(inv, NthAbove(inv, id + 1, 0));
    } else {
      NthAboveStep(inv, id, n - 1);
    }
  }

  // Being the n-th allowed id above `id` means: allowed, above, and n allowed ids
  // are counted on the way (the id itself included).
  ghost predicate IsNthAbove(inv: set<int>, id: int, n: nat, x: int) {
    x > id && x !in inv && Free(inv, id + 1, x) == n
  }

  lemma {:induction false} NthAboveIsNth(inv: set<int>, id: int, n: nat)
    requires n > 0
    ensures IsNthAbove(inv, id, n, NthAbove(inv, id, n))
  {
    var prev := NthAbove(inv, id, n - 1);
    var x := NthAbove(inv, id, n);
    if n > 1 {
      NthAboveIsNth(inv, id, n - 1);
    }
    AllForbiddenCount(inv, prev + 1, x - 1);
    FreeSplit(inv, id + 1, prev, x - 1);
    FreeEnds(inv, id + 1, x);
  }

  lemma {:induction false} AllForbiddenCount(inv: set<int>, lo: int, hi: int)
    requires forall x :: lo <= x <= hi ==> x in inv
    ensures Free(inv, lo, hi) == 0
    decreases Span(lo, hi)
  {
    if lo <= hi {
      AllForbiddenCount(inv, lo, hi - 1);
      FreeEnds(inv, lo, hi);
    }
  }

  // The count determines the id.
  lemma {:induction false} NthAboveUnique(inv: set<int>, id: int, n: nat, x: int)
    requires n > 0 && IsNthAbove(inv, id, n, x)
    ensures x == NthAbove(inv, id, n)
  {
    NthAboveIsNth(inv, id, n);
    var y := NthAbove(inv, id, n);
    if x < y {
      FreeSplit(inv, id + 1, x, y);
      FreeEnds(inv, x + 1, y);
    } else if y < x {
      FreeSplit(inv, id + 1, y, x);
      FreeEnds(inv, y + 1, x);
    }
  }

  lemma {:induction false} NthAboveCompose(inv: set<int>, id: int, m: nat, n: nat)
    ensures NthAbove(inv, NthAbove(inv, id, m), n) == NthAbove(inv, id, m + n)
  {
    if n > 0 {
      NthAboveCompose(inv, id, m, n - 1);
    }
  }

  lemma {:induction false} NthAboveGrows(inv: set<int>, id: int, m: nat, n: nat)
    requires m <= n
    ensures NthAbove(inv, id, m) + (n - m) <= NthAbove(inv, id, n)
    decreases n - m
  {
    if m < n {
      NthAboveGrows(inv, id, m, n - 1);
    }
  }

  // ---------- Counting down ----------

  // The greatest allowed id in 1..id-1, or 0 when there is none.
  ghost predicate IsPrev(inv: set<int>, id: int, r: int) {
    r >= 0 && (r > 0 ==> r < id && r !in inv) && forall x :: r < x < id ==> x in inv
  }

  lemma {:induction false} PrevExists(inv: set<int>, id: int)
    ensures exists r :: IsPrev(inv, id, r)
    decreases if id < 0 then 0 else id
  {
    if id <= 1 {
      assert IsPrev(inv, id, 0);
    } else if id - 1 in inv {
      PrevExists(inv, id - 1);
      var r :| IsPrev(inv, id - 1, r);
      assert IsPrev(inv, id, r);
    } else {
      assert IsPrev(inv, id, id - 1);
    }
  }

  ghost function PrevAllowed(inv: set<int>, id: int): (r: int)
    ensures IsPrev(inv, id, r)
  {
    PrevExists(inv, id);
    var r :| IsPrev(inv, id, r);
    r
  }

  lemma {:induction false} PrevAllowedUnique(inv: set<int>, id: int, r: int)
    requires IsPrev(inv, id, r)
    ensures r == PrevAllowed(inv, id)
  {}

  // The n-th allowed positive id below `id`, or 0 when there are fewer than n.
  ghost function NthBelow(inv: set<int>, id: int, n: nat): int {
    if n == 0 then id else PrevAllowed(inv, NthBelow(inv, id, n - 1))
  }

  lemma {:induction false} NthBelowStep(inv: set<int>, id: int, n: nat)
    requires n > 0 && id > 1
    ensures NthBelow(inv, id, n) == NthBelow(inv, id - 1, if id - 1 in inv then n else n - 1)
  {
    if n == 1 {
      assert NthBelow(inv, id, 1) == PrevAllowed(inv, NthBelow(inv, id, 0));
      assert NthBelow(inv, id - 1, 1) == PrevAllowed(inv, NthBelow(inv, id - 1, 0));
      if id - 1 in inv {
        PrevAllowedUnique(inv, id - 1, PrevAllowed(inv, id));
      } else {
        PrevAllowedUnique(inv, id, id - 1);
      }
    } else {
      NthBelowStep(inv, id, n - 1);
    }
  }

  ghost predicate IsNthBelow(inv: set<int>, id: int, n: nat, x: int) {
    0 < x < id && x !in inv && Free(inv, x, id - 1) == n
  }

  // Counting down finds the n-th allowed id below, or 0 when they run out.
  lemma {:induction false} NthBelowIsNth(inv: set<int>, id: int, n: nat)
    requires n > 0 && id > 0
    ensures n <= Free(inv, 1, id - 1) ==> IsNthBelow(inv, id, n, NthBelow(inv, id, n))
    ensures n > Free(inv, 1, id - 1) ==> NthBelow(inv, id, n) == 0
  {
    var prev := NthBelow(inv, id, n - 1);
    var x := NthBelow(inv, id, n);
    if n > 1 {
      NthBelowIsNth(inv, id, n - 1);
    }
    if prev > 0 {
      AllForbiddenCount(inv, x + 1, prev - 1);
      FreeSplit(inv, x + 1, prev - 1, id - 1);
      FreeSplit(inv, 1, x, id - 1);
      if x > 0 {
        FreeSplit(inv, 1, x - 1, id - 1);
        FreeEnds(inv, x, id - 1);
      }
    }
  }

  lemma {:induction false} NthBelowUnique(inv: set<int>, id: int, n: nat, x: int)
    requires n > 0 && IsNthBelow(inv, id, n, x)
    ensures x == NthBelow(inv, id, n)
  {
    FreeSplit(inv, 1, x - 1, id - 1);
    NthBelowIsNth(inv, id, n);
    var y := NthBelow(inv, id, n);
    if x < y {
      FreeSplit(inv, x, y - 1, id - 1);
      FreeEnds(inv, x, y - 1);
    } else if y < x {
      FreeSplit(inv, y, x - 1, id - 1);
      FreeEnds(inv, y, x - 1);
    }
  }

  // Counting down from the n-th allowed id above an allowed id comes back to it.
  lemma {:induction false} DownUndoesUp(inv: set<int>, id: int, n: nat)
    requires id > 0 && id !in inv
    ensures NthBelow(inv, NthAbove(inv, id, n), n) == id
  {
    if n > 0 {
      var x := NthAbove(inv, id, n);
      NthAboveIsNth(inv, id, n);
      FreeEnds(inv, id, x);
      NthBelowUnique(inv, x, n, id);
    }
  }

  // And the other way round, as long as counting down did not run out.
  lemma {:induction false} UpUndoesDown(inv: set<int>, id: int, n: nat)
    requires id > 0 && id !in inv && n <= Free(inv, 1, id - 1)
    ensures NthAbove(inv, NthBelow(inv, id, n), n) == id
  {
    if n > 0 {
      var x := NthBelow(inv, id, n);
      NthBelowIsNth(inv, id, n);
      FreeEnds(inv, x, id);
      NthAboveUnique(inv, x, n, id);
    }
  }

  // ---------- The whole order ----------

  ghost predicate Ascending(s: seq<int>) {
    forall i, j :: 0 <= i < j < |s| ==> s[i] < s[j]
  }

  // The n-th entry (counted from 1) of the named ids followed by the allowed
  // positive ids; 0 stands for "no such entry".
  ghost function Entry(inv: set<int>, named: seq<int>, n: int): int {
    if n < 1 then 0
    else if n <= |named| then named[n - 1]
    else NthAbove(inv, 0, n - |named|)
  }

  // The position of an allowed positive id in that order.
  ghost function Rank(inv: set<int>, named: seq<int>, id: int): nat {
    |named| + Free(inv, 1, id)
  }

  lemma {:induction false} EntryAtRank(inv: set<int>, named: seq<int>, id: int)
    requires id > 0 && id !in inv
    ensures Rank(inv, named, id) > |named|
    ensures Entry(inv, named, Rank(inv, named, id)) == id
  {
    FreeEnds(inv, 1, id);
    NthAboveUnique(inv, 0, Free(inv, 1, id), id);
  }

  // Going up from an allowed id advances its position by exactly n.
  lemma {:induction false} UpAdvancesRank(inv: set<int>, named: seq<int>, id: int, n: nat)
    requires id > 0 && id !in inv
    ensures NthAbove(inv, id, n) == Entry(inv, named, Rank(inv, named, id) + n)
  {
    EntryAtRank(inv, named, id);
    NthAboveCompose(inv, 0, Free(inv, 1, id), n);
  }

  // Going down moves the position back by exactly n while it stays positive.
  lemma {:induction false} DownLowersRank(inv: set<int>, named: seq<int>, id: int, n: nat)
    requires id > 0 && id !in inv && n <= Free(inv, 1, id - 1)
    ensures NthBelow(inv, id, n) == Entry(inv, named, Rank(inv, named, id) - n)
  {
    FreeEnds(inv, 1, id);
    if n > 0 {
      NthBelowIsNth(inv, id, n);
    }
    var x := NthBelow(inv, id, n);
    UpUndoesDown(inv, id, n);
    UpAdvancesRank(inv, named, x, n);
    FreeSplit(inv, 1, x, id);
    if n > 0 {
      FreeEnds(inv, x, id);
    }
    EntryAtRank(inv, named, x);
  }

  // The enumeration never repeats and never reaches a forbidden positive id.
  lemma {:induction false} EntriesAreAllowed(inv: set<int>, named: seq<int>, n: int)
    requires n >= 1
    ensures n > |named| ==> Entry(inv, named, n) > 0 && Entry(inv, named, n) !in inv
  {
    if n > |named| {
      NthAboveIsNth(inv, 0, n - |named|);
    }
  }

  lemma {:induction false} EntriesAscend(inv: set<int>, named: seq<int>, m: int, n: int)
    requires Ascending(named) && (forall x :: x in named ==> x < 0)
    requires 1 <= m < n
    ensures Entry(inv, named, m) < Entry(inv, named, n)
  {
    if |named| < n {
      EntriesAreAllowed(inv, named, n);
      if |named| < m {
        NthAboveGrows(inv, 0, m - |named|, n - |named|);
      } else {
        assert named[m - 1] in named;
      }
    }
  }
}
