// Damaging once per owner is damaging for every variable.
module DamageBatchProofs {
  import opened Common
  import opened DamageBatch

  // ---------- What the records are ----------

  // A live variable moves its window; without one its workspace; without either its
  // layer.
  predicate Moves(v: Option<Context>, o: Owner) {
    v.Some? &&
    match o
    case OfWindow(w) => v.value.window == Some(w)
    case OfWorkspace(ws) => v.value.window == None && v.value.workspace == Some(ws)
    case OfLayer(l) => v.value.window == None && v.value.workspace == None && v.value.layer == Some(l)
  }

  // Some variable moves the owner...
  ghost predicate Appears(vars: seq<Option<Context>>, o: Owner) {
    exists v :: v in vars && Moves(v, o)
  }

  // ... and asks for that policy.
  ghost predicate Asks(vars: seq<Option<Context>>, o: Owner, p: Policy) {
    exists v :: v in vars && Moves(v, o) && v.value.policy == p
  }

  // The index of the owner's first variable, or |vars|.
  function FirstAt(vars: seq<Option<Context>>, o: Owner): (i: nat)
    ensures i <= |vars|
  {
    if vars == [] || Moves(vars[0], o) then 0 else 1 + FirstAt(vars[1..], o)
  }

  predicate Flag(r: DamageOwner, p: Policy) {
    match p
    case NoPolicy => false
    case Entire => r.entire
    case Border => r.border
    case Shadow => r.shadow
    case Glow => r.glow
  }

  ghost predicate DistinctOwners(owners: seq<DamageOwner>) {
    forall i, j :: 0 <= i < j < |owners| ==> owners[i].owner != owners[j].owner
  }

  predicate Has(owners: seq<DamageOwner>, o: Owner) {
    Find(owners, o) < |owners|
  }

  lemma {:induction false} LastSplits(vars: seq<Option<Context>>, o: Owner, p: Policy)
    requires vars != []
    ensures var before, v := vars[..|vars| - 1], vars[|vars| - 1];
            && (Appears(vars, o) <==> Appears(before, o) || Moves(v, o))
            && (Asks(vars, o, p) <==> Asks(before, o, p) || (Moves(v, o) && v.value.policy == p))
  {}

  lemma {:induction false} FindIs(owners: seq<DamageOwner>, o: Owner, k: nat)
    requires DistinctOwners(owners) && k < |owners| && owners[k].owner == o
    ensures Find(owners, o) == k
  {}

  // What the code takes for the owner is what the variable moves.
  lemma {:induction false} OwnerIsMoved(v: Option<Context>, o: Owner)
    ensures OwnerOf(v) == Some(o) <==> Moves(v, o)
    ensures v.Some? && v.value.window.Some? ==> OwnerOf(v) == Some(OfWindow(v.value.window.value))
    ensures v.Some? && v.value.window == None && v.value.workspace.Some? ==>
            OwnerOf(v) == Some(OfWorkspace(v.value.workspace.value))
    ensures v.Some? && v.value.window == v.value.workspace == None && v.value.layer.Some? ==>
            OwnerOf(v) == Some(OfLayer(v.value.layer.value))
    ensures v == None || v.value.window == v.value.workspace == v.value.layer == None ==> !Moves(v, o)
  {}

  // One step: owners keep their places, and a new one comes last.
  lemma {:induction false} AddVarEffect(world: World, owners: seq<DamageOwner>, v: Option<Context>, o: Owner)
    requires DistinctOwners(owners)
    ensures var added := AddVar(world, owners, v);
            && DistinctOwners(added)
            && |owners| <= |added| <= |owners| + 1
            && (Has(added, o) <==> Has(owners, o) || (OwnerOf(v) == Some(o) && world.monitorOf(o).Some?))
            && (Has(owners, o) ==> Find(added, o) == Find(owners, o))
            && (Has(added, o) && !Has(owners, o) ==> Find(added, o) == |owners|)
  {
    var added := AddVar(world, owners, v);
    assert |added| >= |owners| && forall j :: 0 <= j < |owners| ==> added[j].owner == owners[j].owner;
    if |added| > |owners| {
      assert OwnerOf(v) == Some(added[|owners|].owner);
    }
    if Has(owners, o) {
      FindIs(added, o, Find(owners, o));
    } else if OwnerOf(v) == Some(o) && world.monitorOf(o).Some? {
      FindIs(added, o, |owners|);
    }
  }

  lemma {:induction false} AddVarFlags(world: World, owners: seq<DamageOwner>, v: Option<Context>, o: Owner, p: Policy)
    requires DistinctOwners(owners) && p != NoPolicy && Has(AddVar(world, owners, v), o)
    requires Has(owners, o) ==> world.monitorOf(o) == Some(owners[Find(owners, o)].monitor)
    ensures var added := AddVar(world, owners, v);
            var r := added[Find(added, o)];
            && world.monitorOf(o) == Some(r.monitor)
            && (Flag(r, p) <==> (|| (Has(owners, o) && Flag(owners[Find(owners, o)], p))
                                 || (OwnerOf(v) == Some(o) && v.value.policy == p)))
  {
    AddVarEffect(world, owners, v, o);
    var added := AddVar(world, owners, v);
    var k := Find(added, o);
    if OwnerOf(v) != Some(o) {
      assert added[k] == owners[k];
    }
  }

  // After the collection there is one record for every owner that has a variable and
  // a monitor; it holds that monitor, and each flag is set iff some variable of the
  // owner asked for it.
  lemma {:induction false} RecordsAreRight(world: World, vars: seq<Option<Context>>, o: Owner, p: Policy)
    requires p != NoPolicy
    ensures var owners := Collected(world, vars);
            && DistinctOwners(owners)
            && (Has(owners, o) <==> Appears(vars, o) && world.monitorOf(o).Some?)
            && (Has(owners, o) ==>
                  && world.monitorOf(o) == Some(owners[Find(owners, o)].monitor)
                  && (Flag(owners[Find(owners, o)], p) <==> Asks(vars, o, p)))
  {
    if vars != [] {
      var before, v := vars[..|vars| - 1], vars[|vars| - 1];
      RecordsAreRight(world, before, o, p);
      LastSplits(vars, o, p);
      OwnerIsMoved(v, o);
      AddVarEffect(world, Collected(world, before), v, o);
      if Has(Collected(world, vars), o) {
        AddVarFlags(world, Collected(world, before), v, o, p);
      }
    }
  }

  lemma {:induction false} FirstAtSnoc(vars: seq<Option<Context>>, v: Option<Context>, o: Owner)
    ensures FirstAt(vars + [v], o) ==
            if FirstAt(vars, o) < |vars| || Moves(v, o) then FirstAt(vars, o) else |vars| + 1
    ensures FirstAt(vars, o) < |vars| <==> Appears(vars, o)
  {
    if vars != [] {
      assert (vars + [v])[1..] == vars[1..] + [v];
      FirstAtSnoc(vars[1..], v, o);
      assert forall x :: x in vars <==> x == vars[0] || x in vars[1..];
    }
  }

  // Every record belongs to an owner that appears.
  lemma {:induction false} RecordIsOf(world: World, vars: seq<Option<Context>>, k: nat)
    requires k < |Collected(world, vars)|
    ensures var o := Collected(world, vars)[k].owner;
            Find(Collected(world, vars), o) == k && Appears(vars, o)
  {
    RecordsAreRight(world, vars, Collected(world, vars)[k].owner, Entire);
  }

  // The records stand in the order in which their owners first appear.
  lemma {:induction false} FirstAppearanceOrder(world: World, vars: seq<Option<Context>>, a: Owner, b: Owner)
    requires Has(Collected(world, vars), a) && Has(Collected(world, vars), b)
    ensures Find(Collected(world, vars), a) < Find(Collected(world, vars), b) <==> FirstAt(vars, a) < FirstAt(vars, b)
  {
    var before, v := vars[..|vars| - 1], vars[|vars| - 1];
    assert vars == before + [v];
    FirstAtSnoc(before, v, a);
    FirstAtSnoc(before, v, b);
    OwnerIsMoved(v, a);
    OwnerIsMoved(v, b);
    RecordsAreRight(world, before, a, Entire);
    RecordsAreRight(world, before, b, Entire);
    AddVarEffect(world, Collected(world, before), v, a);
    AddVarEffect(world, Collected(world, before), v, b);
    if Has(Collected(world, before), a) && Has(Collected(world, before), b) {
      FirstAppearanceOrder(world, before, a, b);
    }
  }

  // ---------- The naive form: damage for every variable ----------

  // The cells one variable asks to damage, before and after the move.
  function NaiveWindow(geo: Geometry, o: Owner, p: Policy): set<int> {
    if p == Entire then geo.full(o) else if p == NoPolicy then {} else geo.decoration(o, p)
  }

  function NaivePre(world: World, o: Owner, p: Policy): set<int> {
    if o.OfWindow? then NaiveWindow(world.before, o, p) else world.before.leaving(o)
  }

  function NaivePost(world: World, o: Owner, p: Policy): set<int> {
    if o.OfWindow? then NaiveWindow(world.after, o, p)
    else if p == Entire then world.after.full(o)
    else {}
  }

  ghost predicate VarHits(world: World, v: Option<Context>, c: int) {
    exists o :: Moves(v, o) && OwnerHits(world, o, v.value.policy, c)
  }

  ghost predicate OwnerHits(world: World, o: Owner, p: Policy, c: int) {
    world.monitorOf(o).Some? && (c in NaivePre(world, o, p) || c in NaivePost(world, o, p))
  }

  ghost predicate NaiveHits(world: World, vars: seq<Option<Context>>, c: int) {
    exists v :: v in vars && VarHits(world, v, c)
  }

  ghost predicate NaiveSchedules(world: World, vars: seq<Option<Context>>, m: int) {
    !world.fullscreen(m) && exists v, o :: v in vars && Moves(v, o) && world.monitorOf(o) == Some(m)
  }

  // Damaging a whole window includes its decorations.
  ghost predicate DecorationsInside(geo: Geometry) {
    forall o, p :: geo.decoration(o, p) <= geo.full(o)
  }

  // The four flags of a record at once.
  lemma {:induction false} FlagsOf(world: World, vars: seq<Option<Context>>, k: nat)
    requires k < |Collected(world, vars)|
    ensures var r := Collected(world, vars)[k];
            && world.monitorOf(r.owner) == Some(r.monitor) && Appears(vars, r.owner)
            && (r.entire <==> Asks(vars, r.owner, Entire)) && (r.border <==> Asks(vars, r.owner, Border))
            && (r.shadow <==> Asks(vars, r.owner, Shadow)) && (r.glow <==> Asks(vars, r.owner, Glow))
  {
    var o := Collected(world, vars)[k].owner;
    RecordIsOf(world, vars, k);
    RecordsAreRight(world, vars, o, Entire);
    RecordsAreRight(world, vars, o, Border);
    RecordsAreRight(world, vars, o, Shadow);
    RecordsAreRight(world, vars, o, Glow);
  }

  // A window's batched damage is among what its variables ask for, and with the
  // decorations inside the window it is all of it.
  lemma {:induction false} WindowDamageIsUnion(geo: Geometry, vars: seq<Option<Context>>, r: DamageOwner, c: int)
    requires (r.entire <==> Asks(vars, r.owner, Entire)) && (r.border <==> Asks(vars, r.owner, Border))
    requires (r.shadow <==> Asks(vars, r.owner, Shadow)) && (r.glow <==> Asks(vars, r.owner, Glow))
    ensures c in WindowDamage(geo, r) ==> exists p :: Asks(vars, r.owner, p) && c in NaiveWindow(geo, r.owner, p)
    ensures DecorationsInside(geo) && (exists p :: Asks(vars, r.owner, p) && c in NaiveWindow(geo, r.owner, p)) ==>
            c in WindowDamage(geo, r)
  {}

  // The batch never damages a cell that no variable asked for.
  lemma {:induction false} BatchIsNoMore(world: World, vars: seq<Option<Context>>, c: int)
    requires BatchHits(world, Collected(world, vars), c)
    ensures NaiveHits(world, vars, c)
  {
    var owners := Collected(world, vars);
    var r :| r in owners && (c in PreDamage(world, r) || c in PostDamage(world, r));
    var k :| 0 <= k < |owners| && owners[k] == r;
    FlagsOf(world, vars, k);
    var o := r.owner;
    var v: Option<Context>;
    if o.OfWindow? {
      WindowDamageIsUnion(world.before, vars, r, c);
      WindowDamageIsUnion(world.after, vars, r, c);
      var p :| Asks(vars, o, p) && (c in NaiveWindow(world.before, o, p) || c in NaiveWindow(world.after, o, p));
      v :| v in vars && Moves(v, o) && v.value.policy == p;
    } else if c in PreDamage(world, r) {
      v :| v in vars && Moves(v, o);
    } else {
      v :| v in vars && Moves(v, o) && v.value.policy == Entire;
    }
    assert OwnerHits(world, o, v.value.policy, c);
    assert VarHits(world, v, c);
  }

  // And it damages everything they asked for, since a window's decorations lie inside it.
  lemma {:induction false} BatchIsNoLess(world: World, vars: seq<Option<Context>>, c: int)
    requires DecorationsInside(world.before) && DecorationsInside(world.after)
    requires NaiveHits(world, vars, c)
    ensures BatchHits(world, Collected(world, vars), c)
  {
    var owners := Collected(world, vars);
    var v :| v in vars && VarHits(world, v, c);
    var o :| Moves(v, o) && OwnerHits(world, o, v.value.policy, c);
    var p := v.value.policy;
    assert Appears(vars, o) && Asks(vars, o, p);
    RecordsAreRight(world, vars, o, Entire);
    var r := owners[Find(owners, o)];
    FlagsOf(world, vars, Find(owners, o));
    if o.OfWindow? {
      WindowDamageIsUnion(world.before, vars, r, c);
      WindowDamageIsUnion(world.after, vars, r, c);
    }
    assert r in owners && (c in PreDamage(world, r) || c in PostDamage(world, r));
  }

  // Damaging once per owner covers exactly the union of the per-variable requests.
  lemma {:induction false} BatchIsNaive(world: World, vars: seq<Option<Context>>, c: int)
    requires DecorationsInside(world.before) && DecorationsInside(world.after)
    ensures BatchHits(world, Collected(world, vars), c) <==> NaiveHits(world, vars, c)
  {
    if NaiveHits(world, vars, c) {
      BatchIsNoLess(world, vars, c);
    }
    if BatchHits(world, Collected(world, vars), c) {
      BatchIsNoMore(world, vars, c);
    }
  }

  // Frames are scheduled on exactly the monitors of the variables' owners.
  lemma {:induction false} FramesAreNaive(world: World, vars: seq<Option<Context>>, m: int)
    ensures BatchSchedules(world, Collected(world, vars), m) <==> NaiveSchedules(world, vars, m)
  {
    var owners := Collected(world, vars);
    if r :| r in owners && r.monitor == m {
      var k :| 0 <= k < |owners| && owners[k] == r;
      FlagsOf(world, vars, k);
    }
    if v, o :| v in vars && Moves(v, o) && world.monitorOf(o) == Some(m) {
      RecordsAreRight(world, vars, o, Entire);
      assert owners[Find(owners, o)] in owners;
    }
  }

  // A variable moves a whole layer at the bottom of monitor m.
  ghost predicate NaiveBlurs(world: World, vars: seq<Option<Context>>, m: int) {
    exists v :: v in vars && VarBlurs(world, v, m)
  }

  ghost predicate VarBlurs(world: World, v: Option<Context>, m: int) {
    exists o :: Moves(v, o) && v.value.policy == Entire && IsBottomLayer(world, o, m)
  }

  ghost predicate IsBottomLayer(world: World, o: Owner, m: int) {
    o.OfLayer? && world.bottom(o) && world.monitorOf(o) == Some(m)
  }

  // The blur is outdated on exactly the monitors where some variable moves such a layer.
  lemma {:induction false} BlurIsNaive(world: World, vars: seq<Option<Context>>, m: int)
    ensures BatchBlurs(world, Collected(world, vars), m) <==> NaiveBlurs(world, vars, m)
  {
    var owners := Collected(world, vars);
    if r :| r in owners && OutdatesBlur(world, r) && r.monitor == m {
      var k :| 0 <= k < |owners| && owners[k] == r;
      FlagsOf(world, vars, k);
      var v :| v in vars && Moves(v, r.owner) && v.value.policy == Entire;
      assert VarBlurs(world, v, m);
    }
    if v :| v in vars && VarBlurs(world, v, m) {
      var o :| Moves(v, o) && v.value.policy == Entire && IsBottomLayer(world, o, m);
      RecordsAreRight(world, vars, o, Entire);
      assert Asks(vars, o, Entire);
      assert owners[Find(owners, o)] in owners;
    }
  }

  // The motion a window makes in this tick.
  function MotionOf(world: World, o: Owner): Motion {
    Motion(o, world.before.bounds(o), world.after.bounds(o))
  }

  lemma {:induction false} MotionsOfRecords(world: World, owners: seq<DamageOwner>, motion: Motion)
    requires DistinctOwners(owners)
    ensures var motions := Motions(world, owners);
            && (motion in motions <==>
                motion.window.OfWindow? && Has(owners, motion.window) && motion == MotionOf(world, motion.window))
            && forall i, j :: 0 <= i < j < |motions| ==> motions[i].window != motions[j].window
  {
    if owners != [] {
      var before, o := owners[..|owners| - 1], owners[|owners| - 1].owner;
      assert owners == before + [owners[|owners| - 1]];
      MotionsOfRecords(world, before, motion);
      HasSnoc(before, owners[|owners| - 1], motion.window);
      forall i | 0 <= i < |Motions(world, before)|
        ensures Motions(world, before)[i].window != o
      {
        MotionHasRecord(world, before, i);
      }
    }
  }

  lemma {:induction false} HasSnoc(owners: seq<DamageOwner>, r: DamageOwner, o: Owner)
    ensures Has(owners + [r], o) <==> Has(owners, o) || r.owner == o
  {
    var more := owners + [r];
    assert more[|owners|] == r;
    assert forall j :: 0 <= j < |owners| ==> more[j] == owners[j];
    assert Has(owners, o) ==> more[Find(owners, o)].owner == o;
  }

  lemma {:induction false} MotionHasRecord(world: World, owners: seq<DamageOwner>, i: nat)
    requires i < |Motions(world, owners)|
    ensures exists k :: 0 <= k < |owners| && owners[k].owner == Motions(world, owners)[i].window
  {
    var before := owners[..|owners| - 1];
    if i < |Motions(world, before)| {
      MotionHasRecord(world, before, i);
      var k :| 0 <= k < |before| && before[k].owner == Motions(world, before)[i].window;
      assert owners[k] == before[k];
    }
  }

  // Every animated window on a monitor is told its motion exactly once, however many
  // of its variables move, and no other window is.
  lemma {:induction false} MotionOncePerWindow(world: World, vars: seq<Option<Context>>, motion: Motion)
    ensures var motions := Motions(world, Collected(world, vars));
            && (motion in motions <==>
                && motion.window.OfWindow? && Appears(vars, motion.window)
                && world.monitorOf(motion.window).Some? && motion == MotionOf(world, motion.window))
            && forall i, j :: 0 <= i < j < |motions| ==> motions[i].window != motions[j].window
  {
    RecordsAreRight(world, vars, motion.window, Entire);
    MotionsOfRecords(world, Collected(world, vars), motion);
  }
}
