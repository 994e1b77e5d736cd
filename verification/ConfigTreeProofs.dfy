// When exactly the flat class table is faithful: every route can be followed to its own
// type, and nothing else can be followed.
module ConfigTreeProofs {
  import opened Common
  import opened ConfigTree

  ghost predicate Plain(parts: seq<string>) {
    parts != [] && forall p :: p in parts ==> '.' !in p
  }

  ghost predicate PlainRoutes(routes: seq<Route>) {
    forall r :: r in routes ==> Plain(r.parts)
  }

  // ---------- Class names identify their Pascal-cased path ----------

  lemma {:induction false} DotSplitsOnce(a: string, p: string, b: string, q: string)
    requires '.' !in p && '.' !in q && a + ['.'] + p == b + ['.'] + q
    ensures a == b && p == q
  {
    var s := a + ['.'] + p;
    assert forall k :: |a| < k < |s| ==> s[k] == p[k - |a| - 1] && s[k] in p;
    assert forall k :: |b| < k < |s| ==> s[k] == q[k - |b| - 1] && s[k] in q;
    assert s[|a|] == '.' && s[|b|] == '.';
    assert |a| == |b|;
    assert a == s[..|a|] && b == s[..|b|];
    assert p == s[|a| + 1..] && q == s[|b| + 1..];
  }

  // The naming puts no dot into a name; PascalCase is such a naming.
  ghost predicate DotFree(pc: Naming) {
    forall s :: '.' !in s ==> '.' !in pc(s)
  }

  ghost predicate NoDots(path: seq<string>) {
    forall p :: p in path ==> '.' !in p
  }

  lemma {:induction false} NameLength(path: seq<string>, i: nat)
    requires i <= |path|
    ensures |NameAt(path, i)| >= i
  {
    if i > 0 {
      NameLength(path, i - 1);
    }
  }

  lemma {:induction false} NamesDiffer(path: seq<string>, i: nat, path': seq<string>, j: nat)
    requires NoDots(path) && NoDots(path') && i <= |path| && j <= |path'|
    requires NameAt(path, i) == NameAt(path', j)
    ensures i == j && path[..i] == path'[..j]
  {
    NameLength(path, i);
    NameLength(path', j);
    if i > 0 && j > 0 {
      assert path[i - 1] in path && path'[j - 1] in path';
      DotSplitsOnce(NameAt(path, i - 1), path[i - 1], NameAt(path', j - 1), path'[j - 1]);
      NamesDiffer(path, i - 1, path', j - 1);
      assert path[..i] == path[..i - 1] + [path[i - 1]];
      assert path'[..j] == path'[..j - 1] + [path'[j - 1]];
    }
  }

  lemma {:induction false} PathHasNoDots(pc: Naming, parts: seq<string>)
    requires DotFree(pc) && Plain(parts)
    ensures NoDots(NamePath(pc, parts))
  {}

  // Equal class names come from equally many parts with equal Pascal-cased names.
  lemma {:induction false} ClassNamesDiffer(pc: Naming, parts: seq<string>, i: nat, parts': seq<string>, j: nat)
    requires DotFree(pc) && Plain(parts) && Plain(parts') && i <= |parts| && j <= |parts'|
    requires ClassAt(pc, parts, i) == ClassAt(pc, parts', j)
    ensures i == j && forall k :: 0 <= k < i ==> pc(parts[k]) == pc(parts'[k])
  {
    var path, path' := NamePath(pc, parts), NamePath(pc, parts');
    PathHasNoDots(pc, parts);
    PathHasNoDots(pc, parts');
    NamesDiffer(path, i, path', j);
    forall k | 0 <= k < i
      ensures pc(parts[k]) == pc(parts'[k])
    {
      assert path[..i][k] == path'[..j][k];
    }
  }

  // ---------- Who wrote an entry ----------

  // Part i of the route writes to this class and member.
  ghost predicate Writes(pc: Naming, r: Route, i: nat, class_: string, member: string) {
    i < |r.parts| && ClassAt(pc, r.parts, i) == class_ && r.parts[i] == member
  }

  lemma {:induction false} LookupPut(table: Table, c: string, m: string, entry: Member, class_: string, member: string)
    ensures Lookup(Put(table, c, m, entry), class_, member) ==
            if c == class_ && m == member then Some(entry) else Lookup(table, class_, member)
  {}

  // What a lookup finds after the first n parts: the route's last write there, or what
  // was there before.
  ghost function Found(pc: Naming, before: Option<Member>, r: Route, n: nat, class_: string, member: string)
    : Option<Member>
    requires n <= |r.parts|
  {
    if n == 0 then before
    else if Writes(pc, r, n - 1, class_, member) then Some(EntryAt(pc, r.parts, r.tp, n - 1))
    else Found(pc, before, r, n - 1, class_, member)
  }

  lemma {:induction false} LookupIsFound(pc: Naming, table: Table, r: Route, n: nat, class_: string, member: string)
    requires n <= |r.parts|
    ensures Lookup(Insert(pc, table, r.parts, r.tp, n), class_, member) ==
            Found(pc, Lookup(table, class_, member), r, n, class_, member)
  {
    if n > 0 {
      LookupIsFound(pc, table, r, n - 1, class_, member);
      LookupPut(Insert(pc, table, r.parts, r.tp, n - 1), ClassAt(pc, r.parts, n - 1), r.parts[n - 1],
                EntryAt(pc, r.parts, r.tp, n - 1), class_, member);
    }
  }

  ghost predicate LeftBy(pc: Naming, r: Route, n: nat, class_: string, member: string, now: Option<Member>) {
    exists i: nat :: i < n && Writes(pc, r, i, class_, member) && now == Some(EntryAt(pc, r.parts, r.tp, i))
  }

  ghost predicate Untouched(pc: Naming, r: Route, n: nat, class_: string, member: string) {
    forall i: nat :: i < n ==> !Writes(pc, r, i, class_, member)
  }

  lemma {:induction false} FoundIsLeft(pc: Naming, before: Option<Member>, r: Route, n: nat, class_: string,
      member: string)
    requires n <= |r.parts|
    ensures var now := Found(pc, before, r, n, class_, member);
            LeftBy(pc, r, n, class_, member, now) || (now == before && Untouched(pc, r, n, class_, member))
  {
    if n > 0 {
      FoundIsLeft(pc, before, r, n - 1, class_, member);
    }
  }

  // After its first n parts, a route has left its own entry where it wrote, and the
  // old one everywhere else.
  lemma {:induction false} LookupInsert(pc: Naming, table: Table, r: Route, n: nat, class_: string, member: string)
    requires n <= |r.parts|
    ensures var now := Lookup(Insert(pc, table, r.parts, r.tp, n), class_, member);
            || LeftBy(pc, r, n, class_, member, now)
            || (now == Lookup(table, class_, member) && Untouched(pc, r, n, class_, member))
  {
    LookupIsFound(pc, table, r, n, class_, member);
    FoundIsLeft(pc, Lookup(table, class_, member), r, n, class_, member);
  }

  // The entry is the one its last writer left there.
  ghost predicate WrittenBy(pc: Naming, routes: seq<Route>, class_: string, member: string, entry: Member) {
    exists r, i: nat :: r in routes && Writes(pc, r, i, class_, member) && entry == EntryAt(pc, r.parts, r.tp, i)
  }

  lemma {:induction false} EveryEntryIsWritten(pc: Naming, routes: seq<Route>, class_: string, member: string)
    requires DotFree(pc) && PlainRoutes(routes)
    ensures Lookup(Build(pc, routes), class_, member).Some? ==>
              WrittenBy(pc, routes, class_, member, Lookup(Build(pc, routes), class_, member).value)
  {
    if routes != [] {
      var before, last := routes[..|routes| - 1], routes[|routes| - 1];
      assert last in routes;
      assert forall r :: r in before ==> r in routes;
      EveryEntryIsWritten(pc, before, class_, member);
      LookupInsert(pc, Build(pc, before), last, |last.parts|, class_, member);
    }
  }

  lemma {:induction false} EveryWriteIsKept(pc: Naming, routes: seq<Route>, r: Route, i: nat)
    requires DotFree(pc) && PlainRoutes(routes) && r in routes && i < |r.parts|
    ensures Lookup(Build(pc, routes), ClassAt(pc, r.parts, i), r.parts[i]).Some?
  {
    var before, last := routes[..|routes| - 1], routes[|routes| - 1];
    var class_, member := ClassAt(pc, r.parts, i), r.parts[i];
    assert last in routes;
    assert forall s :: s in before ==> s in routes;
    LookupInsert(pc, Build(pc, before), last, |last.parts|, class_, member);
    if r == last {
      assert Writes(pc, last, i, class_, member);
    } else {
      assert r in before;
      EveryWriteIsKept(pc, before, r, i);
    }
  }

  // ---------- Following routes ----------

  // The walk from part i on looks up exactly the classes that the route wrote to.
  lemma {:induction false} WalkStep(pc: Naming, routes: seq<Route>, parts: seq<string>, i: nat)
    requires DotFree(pc) && PlainRoutes(routes) && Plain(parts) && i < |parts|
    ensures var table := Build(pc, routes);
            var entry := Lookup(table, ClassAt(pc, parts, i), parts[i]);
            Walk(table, ClassAt(pc, parts, i), parts[i..]) ==
            if entry == None then None
            else if i + 1 == |parts| then (if entry.value.isTree then None else Some(entry.value.tp))
            else if entry.value.isTree then Walk(table, ClassAt(pc, parts, i + 1), parts[i + 1..])
            else None
  {
    var class_, member := ClassAt(pc, parts, i), parts[i];
    var entry := Lookup(Build(pc, routes), class_, member);
    EveryEntryIsWritten(pc, routes, class_, member);
    assert parts[i..][0] == member && parts[i..][1..] == parts[i + 1..];
    if entry.Some? && entry.value.isTree {
      TreeEntryNamesClass(pc, routes, class_, member, entry.value);
    }
  }

  // A tree entry always names its class with the member's Pascal-cased name added.
  lemma {:induction false} TreeEntryNamesClass(pc: Naming, routes: seq<Route>, class_: string, member: string,
      entry: Member)
    requires WrittenBy(pc, routes, class_, member, entry) && entry.isTree
    ensures entry.tp == class_ + ['.'] + pc(member)
  {
    var r, i: nat :| r in routes && Writes(pc, r, i, class_, member) && entry == EntryAt(pc, r.parts, r.tp, i);
  }

  // The lookup for part j finds a class, or at the end the type `tp`.
  ghost predicate Good(pc: Naming, table: Table, parts: seq<string>, j: nat, tp: string)
    requires j < |parts|
  {
    var entry := Lookup(table, ClassAt(pc, parts, j), parts[j]);
    entry.Some? && entry.value.isTree == (j + 1 < |parts|) && (j + 1 == |parts| ==> entry.value.tp == tp)
  }

  // Following the parts from i on succeeds with `tp`.
  ghost predicate Followed(pc: Naming, table: Table, parts: seq<string>, i: nat, tp: string) {
    forall j: nat :: i <= j < |parts| ==> Good(pc, table, parts, j, tp)
  }

  lemma {:induction false} GoodAt(pc: Naming, table: Table, parts: seq<string>, j: nat, tp: string)
    requires Followed(pc, table, parts, 0, tp) && j < |parts|
    ensures Good(pc, table, parts, j, tp)
  {}

  lemma {:induction false} WalkIsFollowed(pc: Naming, routes: seq<Route>, parts: seq<string>, i: nat, tp: string)
    requires DotFree(pc) && PlainRoutes(routes) && Plain(parts) && i < |parts|
    ensures Walk(Build(pc, routes), ClassAt(pc, parts, i), parts[i..]) == Some(tp) <==>
            Followed(pc, Build(pc, routes), parts, i, tp)
    decreases |parts| - i
  {
    WalkStep(pc, routes, parts, i);
    if i + 1 < |parts| {
      WalkIsFollowed(pc, routes, parts, i + 1, tp);
    }
    assert Followed(pc, Build(pc, routes), parts, i, tp) <==>
           Good(pc, Build(pc, routes), parts, i, tp) && Followed(pc, Build(pc, routes), parts, i + 1, tp);
  }

  // ---------- No route is lost ----------

  // Two routes want different things in the same place: the same Pascal-cased prefix
  // and member, where one ends and the other goes on, or both end with other types.
  ghost predicate Clash(pc: Naming, r: Route, s: Route) {
    exists i: nat :: Plain(r.parts) && Writes(pc, s, i, ClassAt(pc, r.parts, |r.parts| - 1), r.parts[|r.parts| - 1]) &&
                     EntryAt(pc, s.parts, s.tp, i) != Member(r.tp, false)
  }

  ghost predicate ClashFree(pc: Naming, routes: seq<Route>) {
    forall r, s :: r in routes && s in routes ==> !Clash(pc, r, s)
  }

  ghost predicate NothingLost(pc: Naming, routes: seq<Route>) {
    forall r :: r in routes ==> Walk(Build(pc, routes), "", r.parts) == Some(r.tp)
  }

  // Routes that do not clash record the same thing where they write to the same place.
  lemma {:induction false} SameEntry(pc: Naming, r: Route, j: nat, s: Route, i: nat)
    requires Plain(r.parts) && Plain(s.parts) && j < |r.parts|
    requires Writes(pc, s, i, ClassAt(pc, r.parts, j), r.parts[j])
    requires !Clash(pc, r, s) && !Clash(pc, s, r)
    ensures EntryAt(pc, s.parts, s.tp, i) == EntryAt(pc, r.parts, r.tp, j)
  {}

  lemma {:induction false} RouteIsFollowed(pc: Naming, routes: seq<Route>, r: Route, j: nat)
    requires DotFree(pc) && PlainRoutes(routes) && ClashFree(pc, routes) && r in routes && j < |r.parts|
    ensures Lookup(Build(pc, routes), ClassAt(pc, r.parts, j), r.parts[j]) == Some(EntryAt(pc, r.parts, r.tp, j))
  {
    var class_, member := ClassAt(pc, r.parts, j), r.parts[j];
    EveryWriteIsKept(pc, routes, r, j);
    EveryEntryIsWritten(pc, routes, class_, member);
    var entry := Lookup(Build(pc, routes), class_, member).value;
    var s, i: nat :| s in routes && Writes(pc, s, i, class_, member) && entry == EntryAt(pc, s.parts, s.tp, i);
    SameEntry(pc, r, j, s, i);
  }

  lemma {:induction false} ClashFreeLosesNothing(pc: Naming, routes: seq<Route>)
    requires DotFree(pc) && PlainRoutes(routes) && ClashFree(pc, routes)
    ensures NothingLost(pc, routes)
  {
    forall r | r in routes
      ensures Walk(Build(pc, routes), "", r.parts) == Some(r.tp)
    {
      forall j: nat | j < |r.parts|
        ensures Lookup(Build(pc, routes), ClassAt(pc, r.parts, j), r.parts[j]) == Some(EntryAt(pc, r.parts, r.tp, j))
      {
        RouteIsFollowed(pc, routes, r, j);
      }
      WalkIsFollowed(pc, routes, r.parts, 0, r.tp);
      assert r.parts[0..] == r.parts;
    }
  }

  lemma {:induction false} ClashLoses(pc: Naming, routes: seq<Route>, r: Route, s: Route)
    requires DotFree(pc) && PlainRoutes(routes) && r in routes && s in routes && Clash(pc, r, s)
    ensures !Followed(pc, Build(pc, routes), r.parts, 0, r.tp) || !Followed(pc, Build(pc, routes), s.parts, 0, s.tp)
  {
    var table, n := Build(pc, routes), |r.parts| - 1;
    var i: nat :| Writes(pc, s, i, ClassAt(pc, r.parts, n), r.parts[n]) &&
        EntryAt(pc, s.parts, s.tp, i) != Member(r.tp, false);
    if Good(pc, table, r.parts, n, r.tp) {
      assert !Good(pc, table, s.parts, i, s.tp);
    }
  }

  lemma {:induction false} NothingLostIsClashFree(pc: Naming, routes: seq<Route>)
    requires DotFree(pc) && PlainRoutes(routes) && NothingLost(pc, routes)
    ensures ClashFree(pc, routes)
  {
    forall r, s | r in routes && s in routes
      ensures !Clash(pc, r, s)
    {
      WalkIsFollowed(pc, routes, r.parts, 0, r.tp);
      WalkIsFollowed(pc, routes, s.parts, 0, s.tp);
      assert r.parts[0..] == r.parts && s.parts[0..] == s.parts;
      if Clash(pc, r, s) {
        ClashLoses(pc, routes, r, s);
      }
    }
  }

  // Every route leads to its own type exactly when no two routes clash.
  lemma {:induction false} NothingLostExact(pc: Naming, routes: seq<Route>)
    requires DotFree(pc) && PlainRoutes(routes)
    ensures NothingLost(pc, routes) <==> ClashFree(pc, routes)
  {
    if ClashFree(pc, routes) {
      ClashFreeLosesNothing(pc, routes);
    }
    if NothingLost(pc, routes) {
      NothingLostIsClashFree(pc, routes);
    }
  }

  // ---------- Nothing is added ----------

  // Two routes that pass through the same class, and go on from there under the same
  // name.
  ghost predicate Meet(pc: Naming, r: Route, s: Route, i: nat) {
    && i + 1 < |r.parts| && i + 1 < |s.parts|
    && ClassAt(pc, r.parts, i) == ClassAt(pc, s.parts, i) && pc(r.parts[i]) == pc(s.parts[i])
  }

  // Where two routes meet, each may take the other's member instead of its own.
  ghost predicate SwapClosed(pc: Naming, routes: seq<Route>) {
    forall r, s, i: nat :: r in routes && s in routes && Meet(pc, r, s, i) ==>
        Route(r.parts[i := s.parts[i]], r.tp) in routes
  }

  ghost predicate NothingAdded(pc: Naming, routes: seq<Route>) {
    forall parts, tp :: Walk(Build(pc, routes), "", parts) == Some(tp) ==> Route(parts, tp) in routes
  }

  // The route gave the walk its last member, and the walk's other members have its names.
  ghost predicate GaveLeaf(pc: Naming, r: Route, parts: seq<string>) {
    && |parts| == |r.parts| && Plain(parts) && r.parts[|parts| - 1] == parts[|parts| - 1]
    && forall j :: 0 <= j < |parts| - 1 ==> pc(r.parts[j]) == pc(parts[j])
  }

  // What a successful walk ends at was left there by the last part of a route.
  lemma {:induction false} LeafOfRoute(pc: Naming, routes: seq<Route>, parts: seq<string>,
      tp: string) returns (r: Route)
    requires DotFree(pc) && PlainRoutes(routes) && Plain(parts) && Followed(pc, Build(pc, routes), parts, 0, tp)
    ensures r in routes && r.tp == tp && GaveLeaf(pc, r, parts)
  {
    var n := |parts| - 1;
    EveryEntryIsWritten(pc, routes, ClassAt(pc, parts, n), parts[n]);
    GoodAt(pc, Build(pc, routes), parts, n, tp);
    var entry := Lookup(Build(pc, routes), ClassAt(pc, parts, n), parts[n]).value;
    var i: nat;
    r, i :| r in routes && Writes(pc, r, i, ClassAt(pc, parts, n), parts[n]) && entry == EntryAt(pc, r.parts, r.tp, i);
    ClassNamesDiffer(pc, r.parts, i, parts, n);
  }

  lemma {:induction false} SameClasses(pc: Naming, parts: seq<string>, parts': seq<string>, j: nat)
    requires j <= |parts| && j <= |parts'| && forall k :: 0 <= k < j ==> pc(parts[k]) == pc(parts'[k])
    ensures ClassAt(pc, parts, j) == ClassAt(pc, parts', j)
  {
    if j > 0 {
      SameClasses(pc, parts, parts', j - 1);
    }
  }

  // The walk's member at k, as long as it goes on, was given by a route that goes on too.
  lemma {:induction false} MemberOfRoute(pc: Naming, routes: seq<Route>, parts: seq<string>, tp: string, k: nat)
    returns (s: Route)
    requires DotFree(pc) && PlainRoutes(routes) && Plain(parts) && Followed(pc, Build(pc, routes), parts, 0, tp)
    requires k + 1 < |parts|
    ensures s in routes && k + 1 < |s.parts| && s.parts[k] == parts[k]
    ensures ClassAt(pc, s.parts, k) == ClassAt(pc, parts, k)
  {
    EveryEntryIsWritten(pc, routes, ClassAt(pc, parts, k), parts[k]);
    GoodAt(pc, Build(pc, routes), parts, k, tp);
    var entry := Lookup(Build(pc, routes), ClassAt(pc, parts, k), parts[k]).value;
    var i: nat;
    s, i :| s in routes && Writes(pc, s, i, ClassAt(pc, parts, k), parts[k]) && entry == EntryAt(pc, s.parts, s.tp, i);
    ClassNamesDiffer(pc, s.parts, i, parts, k);
  }

  // The walk's first k members, and then the route's own.
  function Mixed(parts: seq<string>, r: Route, k: nat): Route
    requires k <= |parts| == |r.parts|
  {
    Route(parts[..k] + r.parts[k..], r.tp)
  }

  lemma {:induction false} MixedAt(parts: seq<string>, r: Route, k: nat, j: nat)
    requires k <= |parts| == |r.parts| && j < |parts|
    ensures Mixed(parts, r, k).parts[j] == if j < k then parts[j] else r.parts[j]
  {}

  lemma {:induction false} MixedStep(parts: seq<string>, r: Route, k: nat)
    requires k < |parts| == |r.parts|
    ensures Mixed(parts, r, k).parts[k := parts[k]] == Mixed(parts, r, k + 1).parts
    ensures parts[k] == r.parts[k] ==> Mixed(parts, r, k) == Mixed(parts, r, k + 1)
  {
    var m, n := Mixed(parts, r, k).parts, Mixed(parts, r, k + 1).parts;
    forall j | 0 <= j < |parts|
      ensures n[j] == if j == k then parts[k] else m[j]
    {
      MixedAt(parts, r, k, j);
      MixedAt(parts, r, k + 1, j);
    }
    MixedAt(parts, r, k, k);
  }

  // The mixed route meets a route that goes on with the walk's next member.
  lemma {:induction false} MixedMeets(pc: Naming, parts: seq<string>, r: Route, k: nat, s: Route)
    requires k + 1 < |parts| == |r.parts| && k + 1 < |s.parts| && s.parts[k] == parts[k]
    requires ClassAt(pc, s.parts, k) == ClassAt(pc, parts, k) && pc(r.parts[k]) == pc(parts[k])
    ensures Meet(pc, Mixed(parts, r, k), s, k)
  {
    var m := Mixed(parts, r, k).parts;
    forall j | 0 <= j < k
      ensures pc(m[j]) == pc(parts[j])
    {
      MixedAt(parts, r, k, j);
    }
    MixedAt(parts, r, k, k);
    SameClasses(pc, m, parts, k);
  }

  // One swap at a time turns the route that gave the leaf into the walk.
  lemma {:induction false} SwapsReachWalk(pc: Naming, routes: seq<Route>, parts: seq<string>, r: Route, k: nat)
    requires DotFree(pc) && PlainRoutes(routes) && SwapClosed(pc, routes)
    requires r in routes && GaveLeaf(pc, r, parts) && k < |parts|
    requires Followed(pc, Build(pc, routes), parts, 0, r.tp)
    ensures Mixed(parts, r, k) in routes
  {
    if k == 0 {
      assert Mixed(parts, r, 0) == r;
    } else {
      var before := Mixed(parts, r, k - 1);
      SwapsReachWalk(pc, routes, parts, r, k - 1);
      var s := MemberOfRoute(pc, routes, parts, r.tp, k - 1);
      MixedMeets(pc, parts, r, k - 1, s);
      MixedStep(parts, r, k - 1);
    }
  }

  // Only members without dots are ever found.
  lemma {:induction false} WalkIsPlain(pc: Naming, routes: seq<Route>, class_: string, parts: seq<string>)
    requires DotFree(pc) && PlainRoutes(routes) && Walk(Build(pc, routes), class_, parts).Some?
    ensures Plain(parts)
    decreases |parts|
  {
    EveryEntryIsWritten(pc, routes, class_, parts[0]);
    if |parts| > 1 {
      WalkIsPlain(pc, routes, Lookup(Build(pc, routes), class_, parts[0]).value.tp, parts[1..]);
      assert parts == [parts[0]] + parts[1..];
    }
  }

  // Then every complete walk from the class "" is one of the input routes.
  lemma {:induction false} WalksAreRoutes(pc: Naming, routes: seq<Route>, parts: seq<string>, tp: string)
    requires DotFree(pc) && PlainRoutes(routes) && SwapClosed(pc, routes)
    requires Walk(Build(pc, routes), "", parts) == Some(tp)
    ensures Route(parts, tp) in routes
  {
    WalkIsPlain(pc, routes, "", parts);
    assert parts[0..] == parts;
    WalkIsFollowed(pc, routes, parts, 0, tp);
    var r := LeafOfRoute(pc, routes, parts, tp);
    SwapsReachWalk(pc, routes, parts, r, |parts| - 1);
    MixedStep(parts, r, |parts| - 1);
    assert Mixed(parts, r, |parts|).parts == parts;
  }

  // A swapped route can be followed, whether it was given or not.
  lemma {:induction false} SwapIsFollowed(pc: Naming, routes: seq<Route>, r: Route, s: Route, i: nat)
    requires DotFree(pc) && PlainRoutes(routes) && ClashFree(pc, routes)
    requires r in routes && s in routes && Meet(pc, r, s, i)
    ensures var parts := r.parts[i := s.parts[i]];
            Plain(parts) && Walk(Build(pc, routes), "", parts) == Some(r.tp)
  {
    var parts, table := r.parts[i := s.parts[i]], Build(pc, routes);
    assert s.parts[i] in s.parts;
    forall j: nat | j < |parts|
      ensures Good(pc, table, parts, j, r.tp)
    {
      SameClasses(pc, parts, r.parts, j);
      RouteIsFollowed(pc, routes, r, j);
      RouteIsFollowed(pc, routes, s, i);
    }
    WalkIsFollowed(pc, routes, parts, 0, r.tp);
    assert parts[0..] == parts;
  }

  // The table is faithful: following it and the input routes are the same thing.
  ghost predicate Faithful(pc: Naming, routes: seq<Route>) {
    forall parts, tp :: Walk(Build(pc, routes), "", parts) == Some(tp) <==> Route(parts, tp) in routes
  }

  lemma {:induction false} FaithfulIsBoth(pc: Naming, routes: seq<Route>)
    ensures Faithful(pc, routes) <==> NothingLost(pc, routes) && NothingAdded(pc, routes)
  {
    if Faithful(pc, routes) {
      forall r | r in routes
        ensures Walk(Build(pc, routes), "", r.parts) == Some(r.tp)
      {
        assert Route(r.parts, r.tp) == r;
      }
    }
    if NothingLost(pc, routes) && NothingAdded(pc, routes) {
      forall parts, tp
        ensures Walk(Build(pc, routes), "", parts) == Some(tp) <==> Route(parts, tp) in routes
      {
        assert Route(parts, tp) in routes ==> Walk(Build(pc, routes), "", Route(parts, tp).parts) == Some(tp);
      }
    }
  }

  // It is so exactly when no two routes clash and the routes are closed under swapping
  // members where they meet.
  lemma {:induction false} TreeIsFaithful(pc: Naming, routes: seq<Route>)
    requires DotFree(pc) && PlainRoutes(routes)
    ensures Faithful(pc, routes) <==> ClashFree(pc, routes) && SwapClosed(pc, routes)
  {
    FaithfulIsBoth(pc, routes);
    NothingLostExact(pc, routes);
    if ClashFree(pc, routes) && SwapClosed(pc, routes) {
      forall parts, tp | Walk(Build(pc, routes), "", parts) == Some(tp)
        ensures Route(parts, tp) in routes
      {
        WalksAreRoutes(pc, routes, parts, tp);
      }
    }
    if ClashFree(pc, routes) && NothingAdded(pc, routes) {
      forall r, s, i: nat | r in routes && s in routes && Meet(pc, r, s, i)
        ensures Route(r.parts[i := s.parts[i]], r.tp) in routes
      {
        SwapIsFollowed(pc, routes, r, s, i);
      }
    }
  }

  // ---------- Names that tell the segments apart ----------

  ghost predicate Used(routes: seq<Route>, segment: string) {
    exists r :: r in routes && segment in r.parts
  }

  ghost predicate NamesApart(pc: Naming, routes: seq<Route>) {
    forall a, b :: Used(routes, a) && Used(routes, b) && pc(a) == pc(b) ==> a == b
  }

  // Where names tell the segments apart, swapping changes nothing.
  lemma {:induction false} ApartIsSwapClosed(pc: Naming, routes: seq<Route>)
    requires NamesApart(pc, routes)
    ensures SwapClosed(pc, routes)
  {
    forall r, s, i: nat | r in routes && s in routes && Meet(pc, r, s, i)
      ensures Route(r.parts[i := s.parts[i]], r.tp) in routes
    {
      assert Used(routes, r.parts[i]) && Used(routes, s.parts[i]);
      assert r.parts[i := s.parts[i]] == r.parts;
      assert Route(r.parts, r.tp) == r;
    }
  }

  ghost predicate PrefixFree(routes: seq<Route>) {
    forall r, s :: r in routes && s in routes && r.parts <= s.parts ==> r == s
  }

  lemma {:induction false} ApartAll(pc: Naming, routes: seq<Route>, r: Route, s: Route, n: nat)
    requires NamesApart(pc, routes) && r in routes && s in routes && n <= |r.parts| && n <= |s.parts|
    requires forall k :: 0 <= k < n ==> pc(s.parts[k]) == pc(r.parts[k])
    ensures r.parts[..n] == s.parts[..n]
  {}

  lemma {:induction false} OneMore(a: seq<string>, b: seq<string>, n: nat)
    requires |a| == n + 1 && n < |b| && a[..n] == b[..n] && a[n] == b[n]
    ensures a <= b
  {
    assert forall k :: 0 <= k < n ==> a[..n][k] == b[..n][k];
  }

  lemma {:induction false} ClashIsPrefix(pc: Naming, routes: seq<Route>, r: Route, s: Route)
    requires DotFree(pc) && PlainRoutes(routes) && NamesApart(pc, routes) && r in routes && s in routes &&
             Clash(pc, r, s)
    ensures r.parts <= s.parts && r != s
  {
    var n := |r.parts| - 1;
    var i: nat :| Writes(pc, s, i, ClassAt(pc, r.parts, n), r.parts[n]) &&
        EntryAt(pc, s.parts, s.tp, i) != Member(r.tp, false);
    ClassNamesDiffer(pc, s.parts, i, r.parts, n);
    ApartAll(pc, routes, r, s, n);
    OneMore(r.parts, s.parts, n);
  }

  // Distinct routes of which none is a prefix of another do not clash, if Pascal-casing
  // tells their segments apart.
  lemma {:induction false} PrefixFreeIsClashFree(pc: Naming, routes: seq<Route>)
    requires DotFree(pc) && PlainRoutes(routes) && NamesApart(pc, routes) && PrefixFree(routes)
    ensures ClashFree(pc, routes)
  {
    forall r, s | r in routes && s in routes
      ensures !Clash(pc, r, s)
    {
      if Clash(pc, r, s) {
        ClashIsPrefix(pc, routes, r, s);
      }
    }
  }

  // So for such routes the table is faithful.
  lemma {:induction false} ApartIsFaithful(pc: Naming, routes: seq<Route>)
    requires DotFree(pc) && PlainRoutes(routes) && NamesApart(pc, routes) && PrefixFree(routes)
    ensures Faithful(pc, routes)
  {
    PrefixFreeIsClashFree(pc, routes);
    ApartIsSwapClosed(pc, routes);
    TreeIsFaithful(pc, routes);
  }

  // ---------- From dotted text ----------

  function JoinOn(parts: seq<string>, c: char): string
    requires parts != []
  {
    if |parts| == 1 then parts[0] else parts[0] + [c] + JoinOn(parts[1..], c)
  }

  // Splitting forgets nothing, so different keys are different routes.
  lemma {:induction false} JoinUndoesSplit(s: string, c: char)
    ensures JoinOn(SplitOn(s, c), c) == s
  {
    if s != [] {
      var rest := SplitOn(s[1..], c);
      JoinUndoesSplit(s[1..], c);
      if s[0] == c {
        assert ([[]] + rest)[1..] == rest;
      } else {
        assert ([[s[0]] + rest[0]] + rest[1..])[1..] == rest[1..];
      }
    }
  }

  lemma {:induction false} RoutesArePlain(values: seq<(string, string)>)
    ensures PlainRoutes(RoutesOf(values))
  {}

  // The generator's own case: dotted keys, PascalCase.
  lemma {:induction false} StubTreeIsFaithful(values: seq<(string, string)>)
    ensures Faithful(PascalCase, RoutesOf(values)) <==>
            ClashFree(PascalCase, RoutesOf(values)) && SwapClosed(PascalCase, RoutesOf(values))
  {
    RoutesArePlain(values);
    TreeIsFaithful(PascalCase, RoutesOf(values));
  }

  // Two classes with one name let a walk mix two routes that go on with different members...
  lemma {:induction false} WalksCanMix(pc: Naming, a: string, b: string, x: string, y: string, t: string, u: string)
    requires DotFree(pc) && a != b && x != y && pc(a) == pc(b)
    requires '.' !in a && '.' !in b && '.' !in x && '.' !in y
    ensures var routes := [Route([a, x], t), Route([b, y], u)];
            Walk(Build(pc, routes), "", [a, y]) == Some(u) && Route([a, y], u) !in routes
  {
    var r, s := Route([a, x], t), Route([b, y], u);
    var routes, mixed := [r, s], [a, y];
    ClassesOfTwo(pc, a, x);
    ClassesOfTwo(pc, b, y);
    ClassesOfTwo(pc, a, y);
    EveryWriteIsKept(pc, routes, r, 0);
    EveryEntryIsWritten(pc, routes, "", a);
    EveryWriteIsKept(pc, routes, s, 1);
    EveryEntryIsWritten(pc, routes, ClassAt(pc, s.parts, 1), y);
    WalkStep(pc, routes, mixed, 0);
    WalkStep(pc, routes, mixed, 1);
    assert mixed[0..] == mixed;
  }

  // ... but members with one name, at the end of their routes, do no harm.
  lemma {:induction false} LeavesMayCollide(pc: Naming, x: string, a: string, b: string, t: string, u: string)
    requires DotFree(pc) && a != b && '.' !in x && '.' !in a && '.' !in b
    ensures Faithful(pc, [Route([x, a], t), Route([x, b], u)])
  {
    var routes := [Route([x, a], t), Route([x, b], u)];
    assert forall r, s, i: nat :: r in routes && s in routes && Meet(pc, r, s, i) ==>
        i == 0 && r.parts[i := s.parts[i]] == r.parts;
    assert forall r :: r in routes ==> Route(r.parts, r.tp) == r;
    forall r, s | r in routes && s in routes
      ensures !Clash(pc, r, s)
    {
      NoClashOfTwo(pc, x, r, s);
    }
    TreeIsFaithful(pc, routes);
  }

  lemma {:induction false} NoClashOfTwo(pc: Naming, x: string, r: Route, s: Route)
    requires DotFree(pc) && Plain(r.parts) && Plain(s.parts)
    requires |r.parts| == |s.parts| == 2 && (r.parts[1] == s.parts[1] ==> r == s)
    ensures !Clash(pc, r, s)
  {
    forall i: nat | Writes(pc, s, i, ClassAt(pc, r.parts, 1), r.parts[1])
      ensures EntryAt(pc, s.parts, s.tp, i) == Member(r.tp, false)
    {
      ClassNamesDiffer(pc, s.parts, i, r.parts, 1);
    }
  }

  lemma {:induction false} SplitOfNone(s: string, c: char)
    requires c !in s
    ensures SplitOn(s, c) == [s]
  {
    if s != [] {
      SplitOfNone(s[1..], c);
      assert [s[0]] + s[1..] == s;
    }
  }

  lemma {:induction false} SplitOfTwo(a: string, x: string, c: char)
    requires c !in a && c !in x
    ensures SplitOn(a + [c] + x, c) == [a, x]
  {
    if a == [] {
      assert (a + [c] + x)[1..] == x;
      SplitOfNone(x, c);
    } else {
      assert (a + [c] + x)[1..] == a[1..] + [c] + x;
      SplitOfTwo(a[1..], x, c);
      assert [a[0]] + a[1..] == a;
    }
  }

  // Dotted keys for which the generator's table is not faithful: a_b.x and a_B.y admit
  // a_b.y, since Pascal case gives a_b and a_B one name.
  lemma {:induction false} StubWalksMix(a: string, b: string, values: seq<(string, string)>, t: string, u: string)
    requires a == "a_b" && b == "a_B" && values == [(a + ['.'] + "x", t), (b + ['.'] + "y", u)]
    ensures Walk(Build(PascalCase, RoutesOf(values)), "", [a, "y"]) == Some(u)
    ensures Route([a, "y"], u) !in RoutesOf(values) && !Faithful(PascalCase, RoutesOf(values))
  {
    SplitOfTwo(a, "x", '.');
    SplitOfTwo(b, "y", '.');
    assert RoutesOf(values) == [Route([a, "x"], t), Route([b, "y"], u)];
    PascalCollides();
    WalksCanMix(PascalCase, a, b, "x", "y", t, u);
  }

  lemma {:induction false} ClassesOfTwo(pc: Naming, a: string, x: string)
    ensures ClassAt(pc, [a, x], 0) == "" && ClassAt(pc, [a, x], 1) == "" + ['.'] + pc(a) != ""
  {}

  // ---------- Class names ----------

  // Underscores go, the letter after one or at the start is upper case, the rest lower.
  function Camel(s: string, first: bool): string {
    if s == [] then []
    else if s[0] == '_' then Camel(s[1..], true)
    else
      var c := s[0];
      [if first && 'a' <= c <= 'z' then (c as int - 32) as char
       else if !first && 'A' <= c <= 'Z' then (c as int + 32) as char
       else c] + Camel(s[1..], false)
  }

  // Capitalizing the pieces between underscores is that, but for one name.
  lemma {:induction false} PascalIsCamel(s: string)
    ensures PascalCase(s) == if s == "opengl" then "OpenGL" else Camel(s, true)
  {
    if s != "opengl" {
      PiecesAreCamel(s);
    }
  }

  lemma {:induction false} SplitStep(s: string, c: char)
    requires s != []
    ensures var rest, parts := SplitOn(s[1..], c), SplitOn(s, c);
            && parts[0] == (if s[0] == c then [] else [s[0]] + rest[0])
            && parts[1..] == if s[0] == c then rest else rest[1..]
  {}

  lemma {:induction false} WordStep(c: char, rest: string)
    ensures Capitalize([c] + rest) == [Upper(c)] + LowerAll(rest)
    ensures LowerAll([c] + rest) == [Lower(c)] + LowerAll(rest)
  {
    assert ([c] + rest)[1..] == rest;
  }

  lemma {:induction false} CamelStep(s: string, first: bool)
    requires s != []
    ensures Camel(s, first) ==
            if s[0] == '_' then Camel(s[1..], true)
            else [if first then Upper(s[0]) else Lower(s[0])] + Camel(s[1..], false)
  {}

  // The first piece goes on with the word, the others start one.
  lemma {:induction false} PiecesAreCamel(s: string)
    ensures Camel(s, true) == Capitalize(SplitOn(s, '_')[0]) + CapitalizeAll(SplitOn(s, '_')[1..])
    ensures Camel(s, false) == LowerAll(SplitOn(s, '_')[0]) + CapitalizeAll(SplitOn(s, '_')[1..])
    decreases |s|
  {
    if s != [] {
      var rest := SplitOn(s[1..], '_');
      PiecesAreCamel(s[1..]);
      SplitStep(s, '_');
      CamelStep(s, true);
      CamelStep(s, false);
      if s[0] == '_' {
        OfNothing(CapitalizeAll(rest));
      } else {
        WordStep(s[0], rest[0]);
        Regroup([Upper(s[0])], LowerAll(rest[0]), CapitalizeAll(rest[1..]));
        Regroup([Lower(s[0])], LowerAll(rest[0]), CapitalizeAll(rest[1..]));
      }
    }
  }

  lemma {:induction false} OfNothing(s: string)
    ensures Capitalize([]) + s == s && LowerAll([]) + s == s
  {}

  // A key of three segments makes three classes, named by the segments before them.
  lemma {:induction false} TableOfOneKey(a: string, b: string, c: string, tp: string, values: seq<(string, string)>)
    requires '.' !in a && '.' !in b && '.' !in c && values == [(a + ['.'] + (b + ['.'] + c), tp)]
    ensures var first, second := "." + PascalCase(a), "." + PascalCase(a) + "." + PascalCase(b);
            Build(PascalCase, RoutesOf(values)) ==
            map["" := map[a := Member(first, true)],
                first := map[b := Member(second, true)],
                second := map[c := Member(tp, false)]]
  {
    var parts := [a, b, c];
    SplitFirst(a, b + ['.'] + c, '.');
    SplitOfTwo(b, c, '.');
    assert [a] + [b, c] == parts;
    assert RoutesOf(values) == [Route(parts, tp)];
    assert [Route(parts, tp)][..0] == [];
    ClassesOfThree(a, b, c);
    InsertStep(PascalCase, map[], parts, tp, 0);
    InsertStep(PascalCase, map[], parts, tp, 1);
    InsertStep(PascalCase, map[], parts, tp, 2);
  }

  lemma {:induction false} SplitFirst(a: string, x: string, c: char)
    requires c !in a
    ensures SplitOn(a + [c] + x, c) == [a] + SplitOn(x, c)
  {
    if a == [] {
      assert (a + [c] + x)[1..] == x;
    } else {
      assert (a + [c] + x)[1..] == a[1..] + [c] + x;
      SplitFirst(a[1..], x, c);
      assert [a[0]] + a[1..] == a;
    }
  }

  lemma {:induction false} ClassesOfThree(a: string, b: string, c: string)
    ensures var parts := [a, b, c];
            && ClassAt(PascalCase, parts, 0) == ""
            && ClassAt(PascalCase, parts, 1) == "." + PascalCase(a)
            && ClassAt(PascalCase, parts, 2) == "." + PascalCase(a) + "." + PascalCase(b)
  {}

  // Pascal case is not injective.
  lemma {:induction false} PascalCollides()
    ensures PascalCase("a_b") == PascalCase("a_B")
  {}
}
