// CWorkspace::matchesStaticSelector: the hand-written scanner that decides whether
// a workspace matches a selector such as "r[1-5] w[tv2]".
module Selector {
  import opened Common
  import opened Text

  // ---------- What is matched against ----------

  datatype Window = Window(pinned: bool, hidden: bool, inputBlocked: bool)

  // A layout target; it may hold no window.
  datatype Tile = Tile(floating: bool, window: Option<Window>)

  datatype Group = Group(workspace: int, mapped: bool, floating: bool, pinned: bool, current: Option<Window>)

  datatype FullscreenMode = NoMode | FullMode | MaximizedMode

  // `tiles` is None when the workspace has no layout space; an entry is None where
  // the target is null.
  datatype Workspace = Workspace(id: int, name: string, special: bool, monitor: Option<int>,
                                 tiles: Option<seq<Option<Tile>>>, hasFullscreen: bool, mode: FullscreenMode)

  // Everything the scanner asks others: monitor lookup, Config::ParserUtils::parseInt,
  // std::stoi, the workspace resolver, and the list of window groups.
  datatype World = World(monitorOf: string -> Option<int>, parseInt: string -> Option<int>,
                         stoi: string -> Option<int>, resolve: string -> int, groups: seq<Group>)

  // ---------- Counting windows and groups ----------

  predicate Shown(w: Option<Window>) {
    w.Some? && !w.value.hidden && !w.value.inputBlocked
  }

  // std::optional<bool>: a filter that may be absent.
  predicate TargetCounts(t: Option<Tile>, onlyTiled: Option<bool>, onlyPinned: Option<bool>,
      onlyVisible: Option<bool>) {
    && t.Some?
    && (onlyTiled.Some? ==> t.value.floating != onlyTiled.value)
    && (onlyPinned.Some? ==> t.value.window.Some? && t.value.window.value.pinned == onlyPinned.value)
    && (onlyVisible.Some? ==> t.value.window.Some? && Shown(t.value.window) == onlyVisible.value)
  }

  predicate GroupCounts(g: Group, id: int, onlyTiled: Option<bool>, onlyPinned: Option<bool>,
      onlyVisible: Option<bool>) {
    && g.workspace == id && g.mapped
    && (onlyTiled.Some? ==> g.floating != onlyTiled.value)
    && (onlyPinned.Some? ==> g.pinned == onlyPinned.value)
    && (onlyVisible.Some? ==> Shown(g.current) == onlyVisible.value)
  }

  // The targets, by position, that pass the filters.
  ghost function Counted(ws: Workspace, onlyTiled: Option<bool>, onlyPinned: Option<bool>,
      onlyVisible: Option<bool>): set<int> {
    if ws.tiles == None then {} else
      set i | 0 <= i < |ws.tiles.value| && TargetCounts(ws.tiles.value[i], onlyTiled, onlyPinned, onlyVisible)
  }

  ghost function CountedGroups(world: World, ws: Workspace, onlyTiled: Option<bool>, onlyPinned: Option<bool>,
      onlyVisible: Option<bool>): set<int> {
    set i | 0 <= i < |world.groups| && GroupCounts(world.groups[i], ws.id, onlyTiled, onlyPinned, onlyVisible)
  }

  method GetWindowCount(ws: Workspace, onlyTiled: Option<bool>, onlyPinned: Option<bool>, onlyVisible: Option<bool>)
    returns (no: nat)
    ensures no == |Counted(ws, onlyTiled, onlyPinned, onlyVisible)|
  {
    no := 0;
    if ws.tiles == None {
      return;
    }
    var targets := ws.tiles.value;
    ghost var seen: set<int> := {};
    for i := 0 to |targets|
      invariant forall j :: j in seen <==> 0 <= j < i && TargetCounts(targets[j], onlyTiled, onlyPinned, onlyVisible)
      invariant no == |seen|
    {
      if targets[i] == None {
        continue;
      }
      var t := targets[i].value;
      var visibilityFulfilled := t.window.Some? && !t.window.value.hidden && !t.window.value.inputBlocked;
      if onlyTiled.Some? && t.floating == onlyTiled.value {
        continue;
      }
      if onlyPinned.Some? && (t.window == None || t.window.value.pinned != onlyPinned.value) {
        continue;
      }
      if onlyVisible.Some? && (t.window == None || visibilityFulfilled != onlyVisible.value) {
        continue;
      }
      seen := seen + {i};
      no := no + 1;
    }
    assert seen == Counted(ws, onlyTiled, onlyPinned, onlyVisible);
  }

  method GetGroups(world: World, ws: Workspace, onlyTiled: Option<bool>, onlyPinned: Option<bool>,
      onlyVisible: Option<bool>)
    returns (no: nat)
    ensures no == |CountedGroups(world, ws, onlyTiled, onlyPinned, onlyVisible)|
  {
    no := 0;
    ghost var seen: set<int> := {};
    for i := 0 to |world.groups|
      invariant forall j :: j in seen <==>
                0 <= j < i && GroupCounts(world.groups[j], ws.id, onlyTiled, onlyPinned, onlyVisible)
      invariant no == |seen|
    {
      var g := world.groups[i];
      var visibilityFulfilled := g.current.Some? && !g.current.value.hidden && !g.current.value.inputBlocked;
      if g.workspace != ws.id || !g.mapped {
        continue;
      }
      if onlyTiled.Some? && g.floating == onlyTiled.value {
        continue;
      }
      if onlyPinned.Some? && g.pinned != onlyPinned.value {
        continue;
      }
      if onlyVisible.Some? && visibilityFulfilled != onlyVisible.value {
        continue;
      }
      seen := seen + {i};
      no := no + 1;
    }
    assert seen == CountedGroups(world, ws, onlyTiled, onlyPinned, onlyVisible);
  }

  // Every target is tiled or floating, and never both.
  lemma {:induction false} TiledPlusFloating(ws: Workspace, onlyPinned: Option<bool>, onlyVisible: Option<bool>)
    ensures |Counted(ws, Some(true), onlyPinned, onlyVisible)| + |Counted(ws, Some(false), onlyPinned, onlyVisible)|
         == |Counted(ws, None, onlyPinned, onlyVisible)|
  {
    var tiled := Counted(ws, Some(true), onlyPinned, onlyVisible);
    var floating := Counted(ws, Some(false), onlyPinned, onlyVisible);
    assert tiled + floating == Counted(ws, None, onlyPinned, onlyVisible);
    assert tiled !! floating;
  }

  // ---------- Number ranges ----------

  // std::stoll; None is its out_of_range exception.
  function Stoll(s: string): Option<int>
    requires IsNumber(s)
  {
    var v := NumberValue(s);
    if -INT64_MAX - 1 <= v <= INT64_MAX then Some(v) else None
  }

  // "a-b" with 1 <= a <= b, or None where the scanner reports "Invalid selector".
  method ParseRange(text: string) returns (range: Option<(int, int)>)
    ensures range == RangeOf(text)
  {
    if '-' !in text {
      return None;
    }
    var dash := FirstOf(text, '-');
    var lhs, rhs := text[..dash], text[dash + 1..];
    if !IsNumber(lhs) || !IsNumber(rhs) {
      return None;
    }
    var from, to := Stoll(lhs), Stoll(rhs);
    if from == None || to == None {
      return None;
    }
    if to.value < from.value || to.value < 1 || from.value < 1 {
      return None;
    }
    return Some((from.value, to.value));
  }

  function RangeOf(text: string): Option<(int, int)> {
    if '-' !in text then None else
      var dash := FirstOf(text, '-');
      var lhs, rhs := text[..dash], text[dash + 1..];
      if !IsNumber(lhs) || !IsNumber(rhs) then None else
        match (Stoll(lhs), Stoll(rhs))
        case (Some(from), Some(to)) => if 1 <= from <= to then Some((from, to)) else None
        case _ => None
  }

  predicate InRange(x: int, range: Option<(int, int)>) {
    range.Some? && range.value.0 <= x <= range.value.1
  }

  // ---------- Flags of w[...] ----------

  // wantsOnlyTiled is -1 for "either".
  datatype Flags = Flags(tiled: int, pinned: bool, group: bool, visible: bool)

  const NO_FLAGS := Flags(-1, false, false, false)

  // What one more flag character does, or None where the flag loop breaks.
  function AddFlag(f: Flags, c: char): Option<Flags> {
    if c == 't' && f.tiled == -1 then Some(f.(tiled := 1))
    else if c == 'f' && f.tiled == -1 then Some(f.(tiled := 0))
    else if c == 'p' && !f.pinned then Some(f.(pinned := true))
    else if c == 'g' && !f.group then Some(f.(group := true))
    else if c == 'v' && !f.visible then Some(f.(visible := true))
    else None
  }

  function ScanFlags(f: Flags, text: string): (Flags, nat)
    decreases |text|
  {
    if text == [] || AddFlag(f, text[0]) == None then (f, 0) else
      var (g, n) := ScanFlags(AddFlag(f, text[0]).value, text[1..]);
      (g, n + 1)
  }

  lemma {:induction false} ScanFlagsBound(f: Flags, text: string)
    ensures ScanFlags(f, text).1 <= |text|
    decreases |text|
  {
    if text != [] && AddFlag(f, text[0]).Some? {
      ScanFlagsBound(AddFlag(f, text[0]).value, text[1..]);
    }
  }

  method ParseFlags(prop: string) returns (flags: Flags, flagCount: nat)
    ensures (flags, flagCount) == ScanFlags(NO_FLAGS, prop) && flagCount <= |prop|
  {
    flags, flagCount := NO_FLAGS, 0;
    while flagCount < |prop|
      invariant flagCount <= |prop|
      invariant var (g, n) := ScanFlags(flags, prop[flagCount..]);
                ScanFlags(NO_FLAGS, prop) == (g, n + flagCount)
    {
      var flag := prop[flagCount];
      if flag == 't' && flags.tiled == -1 {
        flags := flags.(tiled := 1);
      } else if flag == 'f' && flags.tiled == -1 {
        flags := flags.(tiled := 0);
      } else if flag == 'p' && !flags.pinned {
        flags := flags.(pinned := true);
      } else if flag == 'g' && !flags.group {
        flags := flags.(group := true);
      } else if flag == 'v' && !flags.visible {
        flags := flags.(visible := true);
      } else {
        break;
      }
      flagCount := flagCount + 1;
    }
  }

  function TiledFilter(f: Flags): Option<bool> { if f.tiled == -1 then None else Some(f.tiled == 1) }
  function PinnedFilter(f: Flags): Option<bool> { if f.pinned then Some(true) else None }
  function VisibleFilter(f: Flags): Option<bool> { if f.visible then Some(true) else None }

  // The number that w[flags...] is compared with.
  ghost function CountFor(world: World, ws: Workspace, f: Flags): nat {
    if f.group then |CountedGroups(world, ws, TiledFilter(f), PinnedFilter(f), VisibleFilter(f))|
    else |Counted(ws, TiledFilter(f), PinnedFilter(f), VisibleFilter(f))|
  }

  method CountTargets(world: World, ws: Workspace, f: Flags) returns (count: nat)
    ensures count == CountFor(world, ws, f)
  {
    if f.group {
      count := GetGroups(world, ws, TiledFilter(f), PinnedFilter(f), VisibleFilter(f));
    } else {
      count := GetWindowCount(ws, TiledFilter(f), PinnedFilter(f), VisibleFilter(f));
    }
  }

  // ---------- One bracketed selector ----------

  // The prop must be the letter, '[', ..., ']'; this is what stands between.
  predicate Bracketed(prop: string) {
    |prop| >= 2 && prop[1] == '[' && prop[|prop| - 1] == ']'
  }

  function Body(prop: string): string
    requires Bracketed(prop)
  {
    prop[2..|prop| - 1]
  }

  predicate SpecialMatches(world: World, ws: Workspace, body: string) {
    var wanted := world.parseInt(body);
    wanted.Some? ==> (wanted.value != 0) == ws.special
  }

  predicate MonitorMatches(world: World, ws: Workspace, body: string) {
    var monitor := world.monitorOf(body);
    monitor.Some? && monitor == ws.monitor
  }

  predicate NameMatches(world: World, ws: Workspace, body: string) {
    && ("s:" <= body ==> body[2..] <= ws.name)
    && ("e:" <= body ==> EndsWith(ws.name, body[2..]))
    && var wanted := world.parseInt(body);
       wanted.Some? ==> wanted.value == if ws.id <= -1337 then 1 else 0
  }

  predicate EndsWith(s: string, suffix: string) {
    |suffix| <= |s| && s[|s| - |suffix|..] == suffix
  }

  predicate FullscreenMatches(world: World, ws: Workspace, body: string) {
    match world.stoi(body)
    case None => false
    case Some(state) =>
      if state == -1 then !ws.hasFullscreen
      else if state == 0 then ws.mode == FullMode
      else if state == 1 then ws.mode == MaximizedMode
      else true
  }

  ghost predicate CountMatches(world: World, ws: Workspace, body: string) {
    var (flags, n) := ScanFlags(NO_FLAGS, body);
    ScanFlagsBound(NO_FLAGS, body);
    var rest := body[n..];
    if '-' in rest then InRange(CountFor(world, ws, flags), RangeOf(rest))
    else IsNumber(rest) && Stoll(rest) == Some(CountFor(world, ws, flags))
  }

  // The verdict on one bracketed selector.
  ghost predicate PropMatches(world: World, ws: Workspace, prop: string) {
    Bracketed(prop) &&
    match prop[0]
    case 'r' => InRange(ws.id, RangeOf(Body(prop)))
    case 's' => SpecialMatches(world, ws, Body(prop))
    case 'm' => MonitorMatches(world, ws, Body(prop))
    case 'n' => NameMatches(world, ws, Body(prop))
    case 'w' => CountMatches(world, ws, Body(prop))
    case 'f' => FullscreenMatches(world, ws, Body(prop))
    case _ => false
  }

  method MatchCount(world: World, ws: Workspace, body: string) returns (ok: bool)
    ensures ok == CountMatches(world, ws, body)
  {
    var flags, flagCount := ParseFlags(body);
    var rest := body[flagCount..];
    if '-' !in rest {
      if !IsNumber(rest) {
        return false;
      }
      var from := Stoll(rest);
      if from == None {
        return false;
      }
      var count := CountTargets(world, ws, flags);
      return count == from.value;
    }
    var range := ParseRange(rest);
    if range == None {
      return false;
    }
    var count := CountTargets(world, ws, flags);
    return range.value.0 <= count <= range.value.1;
  }

  method MatchSpecial(world: World, ws: Workspace, body: string) returns (ok: bool)
    ensures ok == SpecialMatches(world, ws, body)
  {
    var shouldBeSpecial := world.parseInt(body);
    if shouldBeSpecial.Some? && (shouldBeSpecial.value != 0) != ws.special {
      return false;
    }
    return true;
  }

  method MatchMonitor(world: World, ws: Workspace, body: string) returns (ok: bool)
    ensures ok == MonitorMatches(world, ws, body)
  {
    var monitor := world.monitorOf(body);
    if !(if monitor.Some? then monitor == ws.monitor else false) {
      return false;
    }
    return true;
  }

  method MatchName(world: World, ws: Workspace, body: string) returns (ok: bool)
    ensures ok == NameMatches(world, ws, body)
  {
    if "s:" <= body && !(body[2..] <= ws.name) {
      return false;
    }
    if "e:" <= body && !EndsWith(ws.name, body[2..]) {
      return false;
    }
    var wantsNamed := world.parseInt(body);
    if wantsNamed.Some? && wantsNamed.value != (if ws.id <= -1337 then 1 else 0) {
      return false;
    }
    return true;
  }

  method MatchFullscreen(world: World, ws: Workspace, body: string) returns (ok: bool)
    ensures ok == FullscreenMatches(world, ws, body)
  {
    var fsState := world.stoi(body);
    if fsState == None {
      return false;
    }
    if fsState.value == -1 {
      if ws.hasFullscreen {
        return false;
      }
    } else if fsState.value == 0 {
      if ws.mode != FullMode {
        return false;
      }
    } else if fsState.value == 1 {
      if ws.mode != MaximizedMode {
        return false;
      }
    }
    return true;
  }

  method MatchProp(world: World, ws: Workspace, prop: string) returns (ok: bool)
    ensures ok == PropMatches(world, ws, prop)
  {
    if !Bracketed(prop) {
      return false;
    }
    var body := Body(prop);
    if prop[0] == 'r' {
      var range := ParseRange(body);
      ok := range.Some? && range.value.0 <= ws.id <= range.value.1;
    } else if prop[0] == 's' {
      ok := MatchSpecial(world, ws, body);
    } else if prop[0] == 'm' {
      ok := MatchMonitor(world, ws, body);
    } else if prop[0] == 'n' {
      ok := MatchName(world, ws, body);
    } else if prop[0] == 'w' {
      ok := MatchCount(world, ws, body);
    } else if prop[0] == 'f' {
      ok := MatchFullscreen(world, ws, body);
    } else {
      ok := false;
    }
  }

  // ---------- The scanner ----------

  // The bracketed selector at the front of `rest`: up to and including the first
  // ']', or everything when there is none.
  function Front(rest: string): (prop: string)
    ensures prop <= rest
    ensures rest != [] ==> prop != []
  {
    var close := FirstOf(rest, ']');
    if close < |rest| then rest[..close + 1] else rest
  }

  // The bracketed selectors that the index jumps visit, in order.
  function Props(rest: string): seq<string>
    decreases |rest|
  {
    if rest == [] then []
    else if IsSpace(rest[0]) then Props(rest[1..])
    else [Front(rest)] + Props(rest[|Front(rest)|..])
  }

  ghost predicate AllMatch(world: World, ws: Workspace, props: seq<string>) {
    forall p :: p in props ==> PropMatches(world, ws, p)
  }

  ghost predicate Matches(world: World, ws: Workspace, text: string) {
    var selector := Trim(text);
    if selector == [] then true
    else if IsNumber(selector) then
      world.resolve(selector) != WORKSPACE_INVALID && world.resolve(selector) == ws.id
    else if "name:" <= selector then ws.name == selector[5..]
    else if "special" <= selector then ws.name == selector
    else AllMatch(world, ws, Props(selector))
  }

  // The verdict on what the scanner has not visited yet.
  ghost predicate RestMatches(world: World, ws: Workspace, selector: string, i: nat)
    requires i <= |selector|
  {
    AllMatch(world, ws, Props(selector[i..]))
  }

  lemma {:induction false} SpaceAt(world: World, ws: Workspace, selector: string, i: nat)
    requires i < |selector| && IsSpace(selector[i])
    ensures RestMatches(world, ws, selector, i) == RestMatches(world, ws, selector, i + 1)
  {
    assert selector[i..][1..] == selector[i + 1..];
  }

  lemma {:induction false} PropAt(world: World, ws: Workspace, selector: string, i: nat, prop: string)
    requires i < |selector| && !IsSpace(selector[i]) && prop == Front(selector[i..])
    ensures RestMatches(world, ws, selector, i) <==>
            PropMatches(world, ws, prop) && RestMatches(world, ws, selector, i + |prop|)
  {
    assert selector[i..][|prop|..] == selector[i + |prop|..];
    assert Props(selector[i..]) == [prop] + Props(selector[i + |prop|..]);
  }

  // One turn of the scanner's loop at a bracketed selector.
  method MatchNext(world: World, ws: Workspace, selector: string, i: nat) returns (matched: bool, next: nat)
    requires i < |selector| && !IsSpace(selector[i])
    ensures i < next <= |selector|
    ensures RestMatches(world, ws, selector, i) == (matched && RestMatches(world, ws, selector, next))
  {
    var prop := Front(selector[i..]);
    matched := MatchProp(world, ws, prop);
    next := i + |prop|;
    PropAt(world, ws, selector, i, prop);
  }

  method RunScanner(world: World, ws: Workspace, selector: string) returns (ok: bool)
    ensures ok == RestMatches(world, ws, selector, 0)
  {
    var i := 0;
    while i < |selector|
      invariant i <= |selector|
      invariant RestMatches(world, ws, selector, 0) == RestMatches(world, ws, selector, i)
    {
      if IsSpace(selector[i]) {
        SpaceAt(world, ws, selector, i);
        i := i + 1;
        continue;
      }
      var matched, next := MatchNext(world, ws, selector, i);
      if !matched {
        return false;
      }
      i := next;
    }
    return true;
  }

  method MatchesStaticSelector(world: World, ws: Workspace, text: string) returns (ok: bool)
    ensures ok == Matches(world, ws, text)
  {
    var selector := Trim(text);
    if selector == [] {
      return true;
    }
    if IsNumber(selector) {
      var id := world.resolve(selector);
      if id == WORKSPACE_INVALID {
        return false;
      }
      return id == ws.id;
    } else if "name:" <= selector {
      return ws.name == selector[5..];
    } else if "special" <= selector {
      return ws.name == selector;
    }
    ok := RunScanner(world, ws, selector);
    assert selector[0..] == selector;
  }
}
