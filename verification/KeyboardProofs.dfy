// What holds of a keyboard after any run of events.
module KeyboardProofs {
  import opened Common
  import opened Keyboard

  // ---------- Pressed keys ----------

  // Whether the latest event about the key was a press; false if there was none.
  function LatestIsPress(events: seq<Event>, key: int): bool {
    if events == [] then false
    else
      var last := events[|events| - 1];
      if last.Key? && last.key == key then last.pressed
      else LatestIsPress(events[..|events| - 1], key)
  }

  function Fresh<S>(state: S, mods: Mods): View<S> {
    View([], mods, state, state, [], [])
  }

  lemma {:induction false} WithoutKeepsDistinct(s: seq<int>, x: int)
    requires Distinct(s)
    ensures Distinct(Without(s, x))
  {
    if s != [] {
      var rest := Without(s[1..], x);
      WithoutKeepsDistinct(s[1..], x);
      assert forall i :: 0 <= i < |rest| ==> rest[i] in rest;
      assert forall i :: 0 < i < |s| ==> s[0] != s[i];
    }
  }

  lemma {:induction false} StepPressed<S>(xkb: Xkb<S>, v: View<S>, e: Event, key: int)
    ensures key in Step(xkb, v, e).pressed <==> if e.Key? && e.key == key then e.pressed else key in v.pressed
    ensures Distinct(v.pressed) ==> Distinct(Step(xkb, v, e).pressed)
  {
    if e.Key? {
      assert Step(xkb, v, e).pressed == Press(v, e.key, e.pressed).pressed;
      if Distinct(v.pressed) {
        WithoutKeepsDistinct(v.pressed, e.key);
      }
    }
  }

  // Over any run, m_pressed holds exactly the keys whose latest event was a press,
  // each once.
  lemma {:induction false} PressedIsLatest<S>(xkb: Xkb<S>, state: S, mods: Mods, events: seq<Event>, key: int)
    ensures key in Run(xkb, Fresh(state, mods), events).pressed <==> LatestIsPress(events, key)
    ensures Distinct(Run(xkb, Fresh(state, mods), events).pressed)
  {
    if events != [] {
      var before := events[..|events| - 1];
      PressedIsLatest(xkb, state, mods, before, key);
      StepPressed(xkb, Run(xkb, Fresh(state, mods), before), events[|events| - 1], key);
    }
  }

  // The event that the key is held since, if it is.
  function HeldSince(events: seq<Event>, key: int): (i: nat)
    ensures i <= |events|
  {
    if events == [] then 0
    else
      var n := |events| - 1;
      if events[n] == Key(key, true) && !LatestIsPress(events[..n], key) then n else HeldSince(events[..n], key)
  }

  // A held key has been held since some earlier event.
  lemma {:induction false} HeldBefore(events: seq<Event>, key: int)
    requires LatestIsPress(events, key)
    ensures HeldSince(events, key) < |events|
  {
    var n := |events| - 1;
    if !(events[n] == Key(key, true) && !LatestIsPress(events[..n], key)) {
      HeldBefore(events[..n], key);
    }
  }

  // x stands before y in the list.
  ghost predicate Before(s: seq<int>, x: int, y: int) {
    exists i, j :: 0 <= i < j < |s| && s[i] == x && s[j] == y
  }

  lemma {:induction false} WithoutKeepsOrder(s: seq<int>, key: int, x: int, y: int)
    requires Before(Without(s, key), x, y)
    ensures Before(s, x, y)
  {
    var r := Without(s, key);
    var i, j :| 0 <= i < j < |r| && r[i] == x && r[j] == y;
    if s[0] == key {
      WithoutKeepsOrder(s[1..], key, x, y);
      var k, l :| 0 <= k < l < |s[1..]| && s[1..][k] == x && s[1..][l] == y;
      assert s[k + 1] == x && s[l + 1] == y;
    } else if i > 0 {
      var rest := Without(s[1..], key);
      assert r == [s[0]] + rest && rest[i - 1] == x && rest[j - 1] == y;
      WithoutKeepsOrder(s[1..], key, x, y);
      var k, l :| 0 <= k < l < |s[1..]| && s[1..][k] == x && s[1..][l] == y;
      assert s[k + 1] == x && s[l + 1] == y;
    } else {
      var rest := Without(s[1..], key);
      assert r == [s[0]] + rest && rest[j - 1] == y;
      assert y in s[1..];
      var l :| 0 <= l < |s[1..]| && s[1..][l] == y;
      assert s[0] == x && s[l + 1] == y;
    }
  }

  // After any run, m_pressed lists the keys in the order in which they went down.
  lemma {:induction false} PressedInOrder<S>(xkb: Xkb<S>, state: S, mods: Mods, events: seq<Event>, x: int, y: int)
    requires Before(Run(xkb, Fresh(state, mods), events).pressed, x, y)
    ensures HeldSince(events, x) < HeldSince(events, y)
  {
    var n := |events| - 1;
    var before, e := events[..n], events[n];
    var v, w := Run(xkb, Fresh(state, mods), before), Run(xkb, Fresh(state, mods), events);
    var i, j :| 0 <= i < j < |w.pressed| && w.pressed[i] == x && w.pressed[j] == y;
    PressedIsLatest(xkb, state, mods, events, x);
    PressedIsLatest(xkb, state, mods, events, y);
    PressedIsLatest(xkb, state, mods, before, x);
    PressedIsLatest(xkb, state, mods, before, y);
    PressedAfter(xkb, v, e);
    if w.pressed == v.pressed {
      PressedInOrder(xkb, state, mods, before, x, y);
    } else if e.pressed {
      OrderOfSnoc(v.pressed, e.key, x, y);
      if Before(v.pressed, x, y) {
        PressedInOrder(xkb, state, mods, before, x, y);
      } else {
        HeldBefore(before, x);
      }
    } else {
      WithoutKeepsOrder(v.pressed, e.key, x, y);
      PressedInOrder(xkb, state, mods, before, x, y);
    }
  }

  lemma {:induction false} PressedAfter<S>(xkb: Xkb<S>, v: View<S>, e: Event)
    ensures var w := Step(xkb, v, e);
            || w.pressed == v.pressed
            || (e.Key? && e.pressed && e.key !in v.pressed && w.pressed == v.pressed + [e.key])
            || (e.Key? && !e.pressed && e.key in v.pressed && w.pressed == Without(v.pressed, e.key))
  {}

  lemma {:induction false} OrderOfSnoc(s: seq<int>, key: int, x: int, y: int)
    requires Before(s + [key], x, y)
    ensures Before(s, x, y) || (x in s && y == key)
  {
    var r := s + [key];
    var i, j :| 0 <= i < j < |r| && r[i] == x && r[j] == y;
    assert s[i] == x;
    if j < |s| {
      assert s[j] == y;
    }
  }

  // ---------- What xkb is told ----------

  // The directions of the calls about one xkb key, in order.
  function CallsFor(calls: seq<KeyCall>, xkbKey: int): seq<bool> {
    if calls == [] then []
    else
      var last := calls[|calls| - 1];
      CallsFor(calls[..|calls| - 1], xkbKey) + if last.xkbKey == xkbKey then [last.down] else []
  }

  // Down, up, down, up, ...
  ghost predicate Alternates(downs: seq<bool>) {
    forall i :: 0 <= i < |downs| ==> downs[i] == (i % 2 == 0)
  }

  lemma {:induction false} CallsForSnoc(calls: seq<KeyCall>, c: KeyCall, xkbKey: int)
    ensures CallsFor(calls + [c], xkbKey) == CallsFor(calls, xkbKey) + if c.xkbKey == xkbKey then [c.down] else []
  {}

  lemma {:induction false} AlternatesSnoc(downs: seq<bool>, down: bool)
    requires Alternates(downs) && down == (|downs| % 2 == 0)
    ensures Alternates(downs + [down])
  {}

  // Only an effective key event makes a call, and only about its own key.
  lemma {:induction false} StepCallsFor<S>(xkb: Xkb<S>, v: View<S>, e: Event, key: int)
    ensures CallsFor(Step(xkb, v, e).calls, key + 8) ==
            CallsFor(v.calls, key + 8) + if e == Key(key, key !in v.pressed) then [key !in v.pressed] else []
  {
    if e.Key? && (e.key in v.pressed) != e.pressed {
      CallsForSnoc(v.calls, KeyCall(e.key + 8, e.pressed), key + 8);
      assert Step(xkb, v, e).calls == v.calls + [KeyCall(e.key + 8, e.pressed)];
    } else {
      assert Step(xkb, v, e).calls == v.calls;
    }
  }

  // The number of calls about a key is odd exactly while it is pressed.
  lemma {:induction false} StepCalls<S>(xkb: Xkb<S>, v: View<S>, e: Event, key: int)
    requires Alternates(CallsFor(v.calls, key + 8))
    requires key in v.pressed <==> |CallsFor(v.calls, key + 8)| % 2 == 1
    ensures var w := Step(xkb, v, e);
            && Alternates(CallsFor(w.calls, key + 8))
            && (key in w.pressed <==> |CallsFor(w.calls, key + 8)| % 2 == 1)
  {
    StepPressed(xkb, v, e, key);
    StepCallsFor(xkb, v, e, key);
    AlternatesSnoc(CallsFor(v.calls, key + 8), key !in v.pressed);
  }

  // Over any run, the calls made to xkb about each key strictly alternate, starting
  // with down, whatever the backend repeats or loses.
  lemma {:induction false} CallsAlternate<S>(xkb: Xkb<S>, state: S, mods: Mods, events: seq<Event>, key: int)
    ensures var v := Run(xkb, Fresh(state, mods), events);
            && Alternates(CallsFor(v.calls, key + 8))
            && (key in v.pressed <==> |CallsFor(v.calls, key + 8)| % 2 == 1)
  {
    if events != [] {
      var before := events[..|events| - 1];
      CallsAlternate(xkb, state, mods, before, key);
      StepCalls(xkb, Run(xkb, Fresh(state, mods), before), events[|events| - 1], key);
    }
  }

  // The xkb state that the events lead to: every key that goes down or up, eight above
  // its code, and every mask, in order, and nothing else.
  function Replayed<S>(xkb: Xkb<S>, state: S, events: seq<Event>): S {
    if events == [] then state
    else
      var n := |events| - 1;
      var before := Replayed(xkb, state, events[..n]);
      match events[n]
      case Key(key, pressed) =>
        if LatestIsPress(events[..n], key) == pressed then before else xkb.updateKey(before, key + 8, pressed)
      case BackendModifiers => before
      case Mask(mods) => xkb.updateMask(before, mods)
  }

  lemma {:induction false} StateIsReplayed<S>(xkb: Xkb<S>, state: S, mods: Mods, events: seq<Event>)
    ensures Run(xkb, Fresh(state, mods), events).state == Replayed(xkb, state, events)
  {
    if events != [] {
      var before, e := events[..|events| - 1], events[|events| - 1];
      StateIsReplayed(xkb, state, mods, before);
      if e.Key? {
        PressedIsLatest(xkb, state, mods, before, e.key);
      }
    }
  }

  // ---------- What listeners and the device are told ----------

  // What one event makes the keyboard say, from the modifiers before and after it.
  function Said<S>(xkb: Xkb<S>, e: Event, before: Mods, after: Mods, state: S): seq<Emitted> {
    match e
    case Key(key, pressed) =>
      [KeyEvent(key, pressed)] + if after == before then [] else [ModifiersEvent(after)]
    case BackendModifiers => [ModifiersEvent(after)]
    case Mask(_) => if after == before then [] else [ModifiersEvent(after), LedsSet(xkb.leds(state))]
  }

  function AllSaid<S>(xkb: Xkb<S>, v: View<S>, events: seq<Event>): seq<Emitted> {
    if events == [] then []
    else
      var n := |events| - 1;
      var before, after := Run(xkb, v, events[..n]), Run(xkb, v, events);
      AllSaid(xkb, v, events[..n]) + Said(xkb, events[n], before.mods, after.mods, after.state)
  }

  // Over any run: every key event and backend signal is announced; besides, modifiers
  // exactly when they changed; and the LEDs are set exactly by masks that changed them.
  lemma {:induction false} EmittedExact<S>(xkb: Xkb<S>, v: View<S>, events: seq<Event>)
    ensures Run(xkb, v, events).emitted == v.emitted + AllSaid(xkb, v, events)
  {
    if events != [] {
      var n := |events| - 1;
      EmittedExact(xkb, v, events[..n]);
      StepSays(xkb, Run(xkb, v, events[..n]), events[n]);
    }
  }

  lemma {:induction false} StepSays<S>(xkb: Xkb<S>, v: View<S>, e: Event)
    ensures var w := Step(xkb, v, e); w.emitted == v.emitted + Said(xkb, e, v.mods, w.mods, w.state)
  {}

  // ---------- Modifiers ----------

  // The modifiers a listener that started from `initial` believes in.
  function LastTold(emitted: seq<Emitted>, initial: Mods): Mods {
    if emitted == [] then initial
    else
      var last := emitted[|emitted| - 1];
      if last.ModifiersEvent? then last.mods else LastTold(emitted[..|emitted| - 1], initial)
  }

  ghost predicate InSync<S>(xkb: Xkb<S>, v: View<S>, initial: Mods) {
    xkb.serialize(v.state) == v.mods == LastTold(v.emitted, initial)
  }

  lemma {:induction false} StepKeepsSync<S>(xkb: Xkb<S>, v: View<S>, e: Event, initial: Mods)
    requires InSync(xkb, v, initial)
    ensures InSync(xkb, Step(xkb, v, e), initial)
  {}

  // Starting in sync, the last emitted modifiers event, m_modifiersState and the xkb
  // serialization agree after every run.
  lemma {:induction false} RunKeepsSync<S>(xkb: Xkb<S>, v: View<S>, events: seq<Event>, initial: Mods)
    requires InSync(xkb, v, initial)
    ensures InSync(xkb, Run(xkb, v, events), initial)
  {
    if events != [] {
      RunKeepsSync(xkb, v, events[..|events| - 1], initial);
      StepKeepsSync(xkb, Run(xkb, v, events[..|events| - 1]), events[|events| - 1], initial);
    }
  }

  // Whatever the keyboard believed before, every event but a key event that changes
  // nothing brings it back in sync.
  lemma {:induction false} StepRestoresSync<S>(xkb: Xkb<S>, v: View<S>, e: Event, initial: Mods)
    requires v.mods == LastTold(v.emitted, initial)
    ensures InSync(xkb, Step(xkb, v, e), initial) <==>
            InSync(xkb, v, initial) || !e.Key? || (e.key in v.pressed) != e.pressed
    ensures Step(xkb, v, e).mods == LastTold(Step(xkb, v, e).emitted, initial)
  {
    if e.Mask? {
      var w := Refresh(xkb, v.(state := xkb.updateMask(v.state, e.mods), sym := WithGroup(xkb, v.sym, e.mods.group)));
      assert LastTold(w.emitted + [ModifiersEvent(w.mods)], initial) == w.mods;
    }
  }

  ghost predicate OnlyReleases(events: seq<Event>) {
    forall i :: 0 <= i < |events| ==> events[i].Key? && !events[i].pressed
  }

  // Releases of keys that were never pressed change nothing.
  lemma {:induction false} ReleasesDoNothing<S>(xkb: Xkb<S>, v: View<S>, events: seq<Event>)
    requires v.pressed == [] && OnlyReleases(events)
    ensures var w := Run(xkb, v, events); w.pressed == [] && w.state == v.state && w.mods == v.mods
  {
    if events != [] {
      ReleasesDoNothing(xkb, v, events[..|events| - 1]);
    }
  }

  lemma {:induction false} RunBelieves<S>(xkb: Xkb<S>, v: View<S>, events: seq<Event>, initial: Mods)
    requires v.mods == LastTold(v.emitted, initial)
    ensures var w := Run(xkb, v, events); w.mods == LastTold(w.emitted, initial)
  {
    if events != [] {
      var before := events[..|events| - 1];
      RunBelieves(xkb, v, before, initial);
      StepRestoresSync(xkb, Run(xkb, v, before), events[|events| - 1], initial);
    }
  }

  // A fresh keyboard that starts out of step with xkb is in sync again exactly when
  // anything but releases has happened.
  lemma {:induction false} FreshSyncExact<S>(xkb: Xkb<S>, state: S, mods: Mods, events: seq<Event>)
    ensures InSync(xkb, Run(xkb, Fresh(state, mods), events), mods) <==>
            xkb.serialize(state) == mods || !OnlyReleases(events)
  {
    var v := Fresh(state, mods);
    if events != [] {
      var before, e := events[..|events| - 1], events[|events| - 1];
      FreshSyncExact(xkb, state, mods, before);
      RunBelieves(xkb, v, before, mods);
      StepRestoresSync(xkb, Run(xkb, v, before), e, mods);
      if OnlyReleases(before) {
        ReleasesDoNothing(xkb, v, before);
      }
      assert OnlyReleases(events) <==> OnlyReleases(before) && e.Key? && !e.pressed;
    }
  }

  // ---------- The second xkb state ----------

  // xkb's rule for layouts: a mask sets the layout, wrapped into the keymap's range.
  ghost predicate WrapsLayouts<S(!new)>(xkb: Xkb<S>, wrap: int -> int) {
    && (forall s, mods :: xkb.serialize(xkb.updateMask(s, mods)).group == wrap(mods.group))
    && (forall s :: wrap(xkb.serialize(s).group) == xkb.serialize(s).group)
  }

  ghost predicate SameLayout<S>(xkb: Xkb<S>, v: View<S>) {
    xkb.serialize(v.sym).group == v.mods.group
  }

  lemma {:induction false} StepKeepsLayout<S(!new)>(xkb: Xkb<S>, v: View<S>, e: Event, wrap: int -> int, initial: Mods)
    requires WrapsLayouts(xkb, wrap) && InSync(xkb, v, initial) && SameLayout(xkb, v)
    ensures SameLayout(xkb, Step(xkb, v, e))
  {
    if e.Mask? {
      assert xkb.serialize(xkb.updateMask(v.state, e.mods)).group == wrap(e.mods.group);
      assert xkb.serialize(WithGroup(xkb, v.sym, e.mods.group)).group == wrap(e.mods.group);
    } else if e.Key? {
      var state := xkb.updateKey(v.state, e.key + 8, e.pressed);
      var group := xkb.serialize(state).group;
      assert xkb.serialize(WithGroup(xkb, v.sym, group)).group == wrap(group) == group;
    }
  }

  // Starting in sync and with one layout, the state that keybinds are resolved with
  // follows the layout of the keyboard through every run.
  lemma {:induction false} SymFollowsLayout<S(!new)>(xkb: Xkb<S>, v: View<S>, events: seq<Event>, wrap: int -> int,
      initial: Mods)
    requires WrapsLayouts(xkb, wrap) && InSync(xkb, v, initial) && SameLayout(xkb, v)
    ensures SameLayout(xkb, Run(xkb, v, events))
  {
    if events != [] {
      var before := events[..|events| - 1];
      RunKeepsSync(xkb, v, before, initial);
      SymFollowsLayout(xkb, v, before, wrap, initial);
      StepKeepsLayout(xkb, Run(xkb, v, before), events[|events| - 1], wrap, initial);
    }
  }

  // xkb's rule for modifiers: a mask sets them.
  ghost predicate MasksModifiers<S(!new)>(xkb: Xkb<S>) {
    forall s, mods :: var m := xkb.serialize(xkb.updateMask(s, mods));
        m.depressed == mods.depressed && m.latched == mods.latched && m.locked == mods.locked
  }

  ghost predicate NoModifiers<S>(xkb: Xkb<S>, state: S) {
    var m := xkb.serialize(state); m.depressed == 0 && m.latched == 0 && m.locked == 0
  }

  // That state never holds modifiers.
  lemma {:induction false} SymHoldsNoModifiers<S(!new)>(xkb: Xkb<S>, v: View<S>, events: seq<Event>)
    requires MasksModifiers(xkb) && NoModifiers(xkb, v.sym)
    ensures NoModifiers(xkb, Run(xkb, v, events).sym)
  {
    if events != [] {
      SymHoldsNoModifiers(xkb, v, events[..|events| - 1]);
    }
  }

  // ---------- Key events ----------

  // Every key event is passed on, repeated ones included, and only effective ones
  // reach xkb.
  function KeyEventsOf(emitted: seq<Emitted>): seq<Event> {
    if emitted == [] then []
    else
      var last := emitted[|emitted| - 1];
      KeyEventsOf(emitted[..|emitted| - 1]) + if last.KeyEvent? then [Key(last.key, last.pressed)] else []
  }

  function KeysAmong(events: seq<Event>): seq<Event> {
    if events == [] then []
    else
      var last := events[|events| - 1];
      KeysAmong(events[..|events| - 1]) + if last.Key? then [last] else []
  }

  lemma {:induction false} KeyEventsSnoc(emitted: seq<Emitted>, e: Emitted)
    ensures KeyEventsOf(emitted + [e]) == KeyEventsOf(emitted) + if e.KeyEvent? then [Key(e.key, e.pressed)] else []
  {}

  lemma {:induction false} TellKeepsKeys<S>(xkb: Xkb<S>, v: View<S>, xkbKey: int, pressed: bool)
    ensures KeyEventsOf(TellXkb(xkb, v, xkbKey, pressed).emitted) == KeyEventsOf(v.emitted)
  {}

  lemma {:induction false} MaskKeepsKeys<S>(xkb: Xkb<S>, v: View<S>, mods: Mods)
    ensures KeyEventsOf(ApplyMask(xkb, v, mods).emitted) == KeyEventsOf(v.emitted)
  {
    var w := Refresh(xkb, v.(state := xkb.updateMask(v.state, mods), sym := WithGroup(xkb, v.sym, mods.group)));
    KeyEventsSnoc(v.emitted, ModifiersEvent(w.mods));
    KeyEventsSnoc(v.emitted + [ModifiersEvent(w.mods)], LedsSet(xkb.leds(w.state)));
  }

  lemma {:induction false} StepForwards<S>(xkb: Xkb<S>, v: View<S>, e: Event)
    ensures KeyEventsOf(Step(xkb, v, e).emitted) == KeyEventsOf(v.emitted) + if e.Key? then [e] else []
  {
    match e
    case Key(key, pressed) =>
      KeyEventsSnoc(v.emitted, KeyEvent(key, pressed));
      TellKeepsKeys(xkb, Emit(Press(v, key, pressed), KeyEvent(key, pressed)), key + 8, pressed);
    case BackendModifiers =>
      KeyEventsSnoc(v.emitted, ModifiersEvent(xkb.serialize(v.state)));
    case Mask(mods) =>
      MaskKeepsKeys(xkb, v, mods);
  }

  lemma {:induction false} KeysAreForwarded<S>(xkb: Xkb<S>, state: S, mods: Mods, events: seq<Event>)
    ensures KeyEventsOf(Run(xkb, Fresh(state, mods), events).emitted) == KeysAmong(events)
  {
    if events != [] {
      KeysAreForwarded(xkb, state, mods, events[..|events| - 1]);
      StepForwards(xkb, Run(xkb, Fresh(state, mods), events[..|events| - 1]), events[|events| - 1]);
    }
  }
}
