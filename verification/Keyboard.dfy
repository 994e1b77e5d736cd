// IKeyboard's pressed-key list and modifier state, driven by CKeyboard's listeners
// and by updateModifiers, over an abstract xkb state.
module Keyboard {
  datatype Mods = Mods(depressed: int, latched: int, locked: int, group: int)

  // xkb, as far as the keyboard uses it: what a key or a mask does to a state, what it
  // serializes to, and which LEDs it lights.
  datatype Xkb<!S> = Xkb(updateKey: (S, int, bool) -> S, updateMask: (S, Mods) -> S, serialize: S -> Mods,
      leds: S -> int)

  // What the outside sees: key events, modifiers events, and LEDs set on the device.
  datatype Emitted = KeyEvent(key: int, pressed: bool) | ModifiersEvent(mods: Mods) | LedsSet(leds: int)

  datatype KeyCall = KeyCall(xkbKey: int, down: bool)

  // What can happen to a keyboard: a key, the backend's modifiers signal, and a mask
  // sent by a client or a grab.
  datatype Event = Key(key: int, pressed: bool) | BackendModifiers | Mask(mods: Mods)

  // Everything a keyboard holds, as a value, and what it has done so far. `sym` is the
  // second xkb state, which gets layouts but no modifiers.
  datatype View<S> = View(pressed: seq<int>, mods: Mods, state: S, sym: S, emitted: seq<Emitted>, calls: seq<KeyCall>)

  // ---------- One event, on values ----------

  // std::erase
  function Without(s: seq<int>, x: int): (r: seq<int>)
    ensures forall y :: y in r <==> y in s && y != x
  {
    if s == [] then [] else
      assert forall y :: y in s <==> y == s[0] || y in s[1..];
      if s[0] == x then Without(s[1..], x) else [s[0]] + Without(s[1..], x)
  }

  // updatePressed
  function Press<S>(v: View<S>, key: int, pressed: bool): View<S> {
    if (key in v.pressed) == pressed then v
    else if pressed then v.(pressed := v.pressed + [key])
    else v.(pressed := Without(v.pressed, key))
  }

  function Emit<S>(v: View<S>, e: Emitted): View<S> {
    v.(emitted := v.emitted + [e])
  }

  // updateModifiersState
  function Refresh<S>(xkb: Xkb<S>, v: View<S>): View<S> {
    v.(mods := xkb.serialize(v.state))
  }

  // A mask that holds nothing but a layout.
  function WithGroup<S>(xkb: Xkb<S>, sym: S, group: int): S {
    xkb.updateMask(sym, Mods(0, 0, 0, group))
  }

  // updateXkbStateWithKey
  function TellXkb<S>(xkb: Xkb<S>, v: View<S>, xkbKey: int, pressed: bool): View<S> {
    var w := Refresh(xkb, v.(state := xkb.updateKey(v.state, xkbKey, pressed),
                             calls := v.calls + [KeyCall(xkbKey, pressed)]));
    if w.mods == v.mods then w
    else Emit(w.(sym := WithGroup(xkb, w.sym, w.mods.group)), ModifiersEvent(w.mods))
  }

  // updateModifiers
  function ApplyMask<S>(xkb: Xkb<S>, v: View<S>, mods: Mods): View<S> {
    var w := Refresh(xkb, v.(state := xkb.updateMask(v.state, mods), sym := WithGroup(xkb, v.sym, mods.group)));
    if w.mods == v.mods then w else Emit(Emit(w, ModifiersEvent(w.mods)), LedsSet(xkb.leds(w.state)))
  }

  function Step<S>(xkb: Xkb<S>, v: View<S>, e: Event): View<S> {
    match e
    case Key(key, pressed) =>
      var told := Emit(Press(v, key, pressed), KeyEvent(key, pressed));
      if (key in v.pressed) == pressed then told else TellXkb(xkb, told, key + 8, pressed)
    case BackendModifiers =>
      var w := Refresh(xkb, v);
      Emit(w, ModifiersEvent(w.mods))
    case Mask(mods) => ApplyMask(xkb, v, mods)
  }

  function Run<S>(xkb: Xkb<S>, v: View<S>, events: seq<Event>): View<S> {
    if events == [] then v else Step(xkb, Run(xkb, v, events[..|events| - 1]), events[|events| - 1])
  }

  // ---------- The keyboard ----------

  class CKeyboard<S> {
    const xkb: Xkb<S>
    var m_pressed: seq<int>
    var m_modifiersState: Mods
    var m_xkbState: S
    var m_xkbSymState: S
    ghost var emitted: seq<Emitted>
    ghost var calls: seq<KeyCall>

    constructor (xkb: Xkb<S>, state: S, sym: S)
      ensures this.xkb == xkb
      ensures Now() == View([], Mods(0, 0, 0, 0), state, sym, [], [])
    {
      this.xkb := xkb;
      m_pressed := [];
      m_modifiersState := Mods(0, 0, 0, 0);
      m_xkbState := state;
      m_xkbSymState := sym;
      emitted := [];
      calls := [];
    }

    ghost function Now(): View<S>
      reads this
    {
      View(m_pressed, m_modifiersState, m_xkbState, m_xkbSymState, emitted, calls)
    }

    method GetPressed(key: int) returns (contains: bool)
      ensures contains <==> key in m_pressed
    {
      contains := key in m_pressed;
    }

    method UpdatePressed(key: int, pressed: bool) returns (updated: bool)
      modifies this`m_pressed
      ensures Now() == Press(old(Now()), key, pressed)
      ensures updated <==> (key in old(m_pressed)) != pressed
    {
      var contains := GetPressed(key);
      if contains && pressed {
        return false;
      }
      if !contains && !pressed {
        return false;
      }
      if contains {
        m_pressed := Without(m_pressed, key);
      } else {
        m_pressed := m_pressed + [key];
      }
      return true;
    }

    method UpdateModifiersState() returns (changed: bool)
      modifies this`m_modifiersState
      ensures Now() == Refresh(xkb, old(Now()))
      ensures changed <==> m_modifiersState != old(m_modifiersState)
    {
      var serialized := xkb.serialize(m_xkbState);
      if serialized.depressed == m_modifiersState.depressed && serialized.latched == m_modifiersState.latched &&
         serialized.locked == m_modifiersState.locked && serialized.group == m_modifiersState.group {
        return false;
      }
      m_modifiersState := serialized;
      return true;
    }

    method UpdateXkbStateWithKey(xkbKey: int, pressed: bool)
      modifies this
      ensures Now() == TellXkb(xkb, old(Now()), xkbKey, pressed)
    {
      m_xkbState := xkb.updateKey(m_xkbState, xkbKey, pressed);
      calls := calls + [KeyCall(xkbKey, pressed)];
      var changed := UpdateModifiersState();
      if changed {
        m_xkbSymState := xkb.updateMask(m_xkbSymState, Mods(0, 0, 0, m_modifiersState.group));
        emitted := emitted + [ModifiersEvent(m_modifiersState)];
      }
    }

    method UpdateModifiers(mods: Mods)
      modifies this
      ensures Now() == Step(xkb, old(Now()), Mask(mods))
    {
      m_xkbState := xkb.updateMask(m_xkbState, mods);
      m_xkbSymState := xkb.updateMask(m_xkbSymState, Mods(0, 0, 0, mods.group));
      var changed := UpdateModifiersState();
      if !changed {
        return;
      }
      emitted := emitted + [ModifiersEvent(m_modifiersState)];
      UpdateLEDs();
    }

    method UpdateLEDs()
      modifies this`emitted
      ensures Now() == Emit(old(Now()), LedsSet(xkb.leds(m_xkbState)))
    {
      emitted := emitted + [LedsSet(xkb.leds(m_xkbState))];
    }

    // The `key` listener of CKeyboard.
    method OnKey(key: int, pressed: bool)
      modifies this
      ensures Now() == Step(xkb, old(Now()), Key(key, pressed))
    {
      var updated := UpdatePressed(key, pressed);
      emitted := emitted + [KeyEvent(key, pressed)];
      if updated {
        UpdateXkbStateWithKey(key + 8, pressed);
      }
    }

    // The `modifiers` listener of CKeyboard.
    method OnModifiers()
      modifies this
      ensures Now() == Step(xkb, old(Now()), BackendModifiers)
    {
      var changed := UpdateModifiersState();
      emitted := emitted + [ModifiersEvent(m_modifiersState)];
    }

    // A whole run of events, in the order they arrive.
    method Drive(events: seq<Event>)
      modifies this
      ensures Now() == Run(xkb, old(Now()), events)
    {
      for i := 0 to |events|
        invariant Now() == Run(xkb, old(Now()), events[..i])
      {
        assert events[..i + 1][..i] == events[..i];
        match events[i]
        case Key(key, pressed) => OnKey(key, pressed);
        case BackendModifiers => OnModifiers();
        case Mask(mods) => UpdateModifiers(mods);
      }
      assert events[..|events|] == events;
    }
  }
}
