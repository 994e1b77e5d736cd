// CHyprAnimationManager::tick: instead of damaging for every animated variable, it
// first collects one record per owner and damages once per record, before and after
// the values move.
module DamageBatch {
  import opened Common

  datatype Policy = NoPolicy | Entire | Border | Shadow | Glow

  datatype Owner = OfWindow(id: int) | OfWorkspace(id: int) | OfLayer(id: int)

  // The weak references of a variable's context, locked, and its damage policy.
  datatype Context = Context(window: Option<int>, workspace: Option<int>, layer: Option<int>, policy: Policy)

  datatype DamageOwner = DamageOwner(owner: Owner, monitor: int, entire: bool, border: bool, shadow: bool, glow: bool)

  // The cells that damaging an owner touches, at one moment: the owner itself, one of
  // its decorations, or (workspaces and layers) whatever is damaged before a move; and
  // the bounding box of a window.
  datatype Geometry = Geometry(full: Owner -> set<int>, decoration: (Owner, Policy) -> set<int>,
      leaving: Owner -> set<int>, bounds: Owner -> set<int>)

  // Geometry before and after the values move, the owner's monitor if it has one,
  // whether a monitor shows a fullscreen window, and whether a layer is one of the two
  // at the bottom.
  datatype World = World(monitorOf: Owner -> Option<int>, before: Geometry, after: Geometry, fullscreen: int -> bool,
      bottom: Owner -> bool)

  // What a window is told for its motion blur.
  datatype Motion = Motion(window: Owner, before: set<int>, after: set<int>)

  // ---------- Collecting ----------

  function OwnerOf(v: Option<Context>): Option<Owner> {
    if v == None then None
    else if v.value.window.Some? then Some(OfWindow(v.value.window.value))
    else if v.value.workspace.Some? then Some(OfWorkspace(v.value.workspace.value))
    else if v.value.layer.Some? then Some(OfLayer(v.value.layer.value))
    else None
  }

  // The record of `o`, or |owners|.
  function Find(owners: seq<DamageOwner>, o: Owner): (k: nat)
    ensures k <= |owners| && (k < |owners| ==> owners[k].owner == o)
    ensures forall j :: 0 <= j < k ==> owners[j].owner != o
  {
    if owners == [] || owners[0].owner == o then 0 else 1 + Find(owners[1..], o)
  }

  function WithPolicy(r: DamageOwner, p: Policy): (w: DamageOwner)
    ensures w.owner == r.owner && w.monitor == r.monitor
  {
    match p
    case NoPolicy => r
    case Entire => r.(entire := true)
    case Border => r.(border := true)
    case Shadow => r.(shadow := true)
    case Glow => r.(glow := true)
  }

  // What one variable does to the records.
  function AddVar(world: World, owners: seq<DamageOwner>, v: Option<Context>): seq<DamageOwner> {
    match OwnerOf(v)
    case None => owners
    case Some(o) =>
      var k := Find(owners, o);
      if k < |owners| then owners[k := WithPolicy(owners[k], v.value.policy)]
      else if world.monitorOf(o) == None then owners
      else owners + [WithPolicy(DamageOwner(o, world.monitorOf(o).value, false, false, false, false), v.value.policy)]
  }

  function Collected(world: World, vars: seq<Option<Context>>): seq<DamageOwner> {
    if vars == [] then [] else AddVar(world, Collected(world, vars[..|vars| - 1]), vars[|vars| - 1])
  }

  // The inner loop: a pointer to the owner's record, if there is one.
  method FindOwner(owners: seq<DamageOwner>, o: Owner) returns (k: nat)
    ensures k == Find(owners, o)
  {
    k := 0;
    while k < |owners|
      invariant k <= Find(owners, o)
    {
      if owners[k].owner == o {
        return;
      }
      k := k + 1;
    }
  }

  method Collect(world: World, vars: seq<Option<Context>>) returns (owners: seq<DamageOwner>)
    ensures owners == Collected(world, vars)
  {
    owners := [];
    for i := 0 to |vars|
      invariant owners == Collected(world, vars[..i])
    {
      assert vars[..i + 1][..i] == vars[..i];
      var v := vars[i];
      if v == None {
        continue;
      }
      var o := OwnerOf(v);
      if o == None {
        continue;
      }
      var owner := FindOwner(owners, o.value);
      if owner == |owners| {
        var monitor := world.monitorOf(o.value);
        if monitor == None {
          continue;
        }
        owners := owners + [DamageOwner(o.value, monitor.value, false, false, false, false)];
      }
      owners := owners[owner := WithPolicy(owners[owner], v.value.policy)];
    }
    assert vars[..|vars|] == vars;
  }

  // ---------- Damaging ----------

  // damageWindowForPolicies
  function WindowDamage(geo: Geometry, r: DamageOwner): set<int> {
    if r.entire then geo.full(r.owner)
    else
      (if r.border then geo.decoration(r.owner, Border) else {}) +
      (if r.shadow then geo.decoration(r.owner, Shadow) else {}) +
      (if r.glow then geo.decoration(r.owner, Glow) else {})
  }

  function PreDamage(world: World, r: DamageOwner): set<int> {
    if r.owner.OfWindow? then WindowDamage(world.before, r) else world.before.leaving(r.owner)
  }

  function PostDamage(world: World, r: DamageOwner): set<int> {
    if r.owner.OfWindow? then WindowDamage(world.after, r)
    else if r.entire then world.after.full(r.owner)
    else {}
  }

  function DamageOf(world: World, r: DamageOwner, post: bool): set<int> {
    if post then PostDamage(world, r) else PreDamage(world, r)
  }

  // Whether the batch damages cell c.
  ghost predicate BatchHits(world: World, owners: seq<DamageOwner>, c: int) {
    exists r :: r in owners && (c in PreDamage(world, r) || c in PostDamage(world, r))
  }

  // Whether the batch schedules a frame on monitor m.
  ghost predicate BatchSchedules(world: World, owners: seq<DamageOwner>, m: int) {
    !world.fullscreen(m) && exists r :: r in owners && r.monitor == m
  }

  method DamageOnce(world: World, owners: seq<DamageOwner>, post: bool) returns (damage: set<int>)
    ensures forall c :: c in damage <==> exists r :: r in owners && c in DamageOf(world, r, post)
  {
    damage := {};
    for i := 0 to |owners|
      invariant forall c :: c in damage <==> exists j :: 0 <= j < i && c in DamageOf(world, owners[j], post)
    {
      damage := damage + DamageOf(world, owners[i], post);
    }
  }

  // Whether the batch marks the blur of monitor m as outdated.
  ghost predicate BatchBlurs(world: World, owners: seq<DamageOwner>, m: int) {
    exists r :: r in owners && OutdatesBlur(world, r) && r.monitor == m
  }

  predicate OutdatesBlur(world: World, r: DamageOwner) {
    r.owner.OfLayer? && r.entire && world.bottom(r.owner)
  }

  function Motions(world: World, owners: seq<DamageOwner>): seq<Motion> {
    if owners == [] then []
    else
      var o := owners[|owners| - 1].owner;
      Motions(world, owners[..|owners| - 1]) +
      if o.OfWindow? then [Motion(o, world.before.bounds(o), world.after.bounds(o))] else []
  }

  method RecordMotion(world: World, owners: seq<DamageOwner>) returns (motions: seq<Motion>)
    ensures motions == Motions(world, owners)
  {
    motions := [];
    for i := 0 to |owners|
      invariant motions == Motions(world, owners[..i])
    {
      assert owners[..i + 1][..i] == owners[..i];
      var o := owners[i].owner;
      if !o.OfWindow? {
        continue;
      }
      motions := motions + [Motion(o, world.before.bounds(o), world.after.bounds(o))];
    }
    assert owners[..|owners|] == owners;
  }

  method Tick(world: World, vars: seq<Option<Context>>)
    returns (damage: set<int>, frames: set<int>, blurred: set<int>, motions: seq<Motion>)
    ensures forall c :: c in damage <==> BatchHits(world, Collected(world, vars), c)
    ensures forall m :: m in frames <==> BatchSchedules(world, Collected(world, vars), m)
    ensures forall m :: m in blurred <==> BatchBlurs(world, Collected(world, vars), m)
    ensures motions == Motions(world, Collected(world, vars))
  {
    var owners := Collect(world, vars);
    damage := DamageOnce(world, owners, false);
    motions := RecordMotion(world, owners);
    var after := DamageOnce(world, owners, true);
    damage := damage + after;
    frames, blurred := {}, {};
    for i := 0 to |owners|
      invariant forall m :: m in frames <==> !world.fullscreen(m) && exists j :: 0 <= j < i && owners[j].monitor == m
      invariant forall m :: m in blurred <==>
                exists j :: 0 <= j < i && OutdatesBlur(world, owners[j]) && owners[j].monitor == m
    {
      if OutdatesBlur(world, owners[i]) {
        blurred := blurred + {owners[i].monitor};
      }
      if !world.fullscreen(owners[i].monitor) {
        frames := frames + {owners[i].monitor};
      }
    }
  }
}
