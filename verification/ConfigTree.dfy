// generateLuaStubs.py: config_values_to_config_tree turns dotted config routes such
// as "input.touchpad.tap_and_drag" into a flat table of classes.
module ConfigTree {
  import opened Common

  // What a class says about one member: its type, or the class that holds the rest
  // of the route.
  datatype Member = Member(tp: string, isTree: bool)

  type Table = map<string, map<string, Member>>

  // ---------- str.split, str.capitalize, pascal_case ----------

  // s.split(c): the pieces between the separators, always at least one.
  function SplitOn(s: string, c: char): (parts: seq<string>)
    ensures parts != [] && forall p :: p in parts ==> c !in p
  {
    if s == [] then [[]]
    else
      var rest := SplitOn(s[1..], c);
      if s[0] == c then [[]] + rest else [[s[0]] + rest[0]] + rest[1..]
  }

  function Upper(c: char): char {
    if 'a' <= c <= 'z' then (c as int - 32) as char else c
  }

  function Lower(c: char): char {
    if 'A' <= c <= 'Z' then (c as int + 32) as char else c
  }

  function LowerAll(s: string): (r: string)
    ensures '.' !in s ==> '.' !in r
  {
    if s == [] then [] else [Lower(s[0])] + LowerAll(s[1..])
  }

  function Capitalize(s: string): (r: string)
    ensures '.' !in s ==> '.' !in r
  {
    if s == [] then [] else [Upper(s[0])] + LowerAll(s[1..])
  }

  function CapitalizeAll(parts: seq<string>): (r: string)
    ensures (forall p :: p in parts ==> '.' !in p) ==> '.' !in r
  {
    if parts == [] then [] else Capitalize(parts[0]) + CapitalizeAll(parts[1..])
  }

  lemma {:induction false} SplitKeepsOut(s: string, c: char, d: char)
    requires d !in s
    ensures forall p :: p in SplitOn(s, c) ==> d !in p
  {
    if s != [] {
      SplitKeepsOut(s[1..], c, d);
    }
  }

  function PascalCase(s: string): (r: string)
    ensures '.' !in s ==> '.' !in r
  {
    if s == "opengl" then "OpenGL"
    else
      if '.' !in s then SplitKeepsOut(s, '_', '.'); CapitalizeAll(SplitOn(s, '_'))
      else CapitalizeAll(SplitOn(s, '_'))
  }

  // ---------- The table ----------

  // How a segment becomes part of a class name; the generator uses PascalCase.
  type Naming = string -> string

  function NamePath(pc: Naming, parts: seq<string>): (path: seq<string>)
    ensures |path| == |parts|
  {
    seq(|parts|, i requires 0 <= i < |parts| => pc(parts[i]))
  }

  // The first i names, each with a dot in front.
  function NameAt(path: seq<string>, i: nat): string
    requires i <= |path|
  {
    if i == 0 then "" else NameAt(path, i - 1) + ['.'] + path[i - 1]
  }

  // The class reached after the first i parts of a route.
  function ClassAt(pc: Naming, parts: seq<string>, i: nat): string
    requires i <= |parts|
  {
    NameAt(NamePath(pc, parts), i)
  }

  function Put(table: Table, class_: string, member: string, entry: Member): Table {
    table[class_ := (if class_ in table then table[class_] else map[])[member := entry]]
  }

  // What a route records for its part i.
  function EntryAt(pc: Naming, parts: seq<string>, tp: string, i: nat): Member
    requires i < |parts|
  {
    if i + 1 < |parts| then Member(ClassAt(pc, parts, i + 1), true) else Member(tp, false)
  }

  // The table after the first i parts of a route.
  function Insert(pc: Naming, table: Table, parts: seq<string>, tp: string, i: nat): Table
    requires i <= |parts|
  {
    if i == 0 then table
    else
      Put(Insert(pc, table, parts, tp, i - 1), ClassAt(pc, parts, i - 1), parts[i - 1], EntryAt(pc, parts, tp, i - 1))
  }

  // A config value: its route, split at the dots, and its type.
  datatype Route = Route(parts: seq<string>, tp: string)

  function Build(pc: Naming, routes: seq<Route>): Table {
    if routes == [] then map[]
    else
      var last := routes[|routes| - 1];
      Insert(pc, Build(pc, routes[..|routes| - 1]), last.parts, last.tp, |last.parts|)
  }

  function RoutesOf(values: seq<(string, string)>): seq<Route> {
    seq(|values|, i requires 0 <= i < |values| => Route(SplitOn(values[i].0, '.'), values[i].1))
  }

  // What one turn of the inner loop does.
  lemma {:induction false} InsertStep(pc: Naming, table: Table, parts: seq<string>, tp: string, i: nat)
    requires i < |parts|
    ensures Insert(pc, table, parts, tp, i + 1) ==
            Put(Insert(pc, table, parts, tp, i), ClassAt(pc, parts, i), parts[i], EntryAt(pc, parts, tp, i))
    ensures ClassAt(pc, parts, i + 1) == ClassAt(pc, parts, i) + ['.'] + pc(parts[i])
  {}

  method InsertRoute(table: Table, route: string, tp: string) returns (ret: Table)
    ensures var parts := SplitOn(route, '.'); ret == Insert(PascalCase, table, parts, tp, |parts|)
  {
    ret := table;
    var routeParts := SplitOn(route, '.');
    var currType := "";
    for i := 0 to |routeParts|
      invariant ret == Insert(PascalCase, table, routeParts, tp, i)
      invariant i < |routeParts| ==> currType == ClassAt(PascalCase, routeParts, i)
    {
      InsertStep(PascalCase, table, routeParts, tp, i);
      var isTreeType := i + 1 < |routeParts|;
      var nextType;
      if isTreeType {
        nextType := currType + ['.'] + PascalCase(routeParts[i]);
      } else {
        nextType := tp;
      }
      var entry := if currType in ret then ret[currType] else map[];
      entry := entry[routeParts[i] := Member(nextType, isTreeType)];
      ret := ret[currType := entry];
      currType := nextType;
    }
  }

  method ConfigValuesToConfigTree(values: seq<(string, string)>) returns (ret: Table)
    ensures ret == Build(PascalCase, RoutesOf(values))
  {
    ret := map[];
    for i := 0 to |values|
      invariant ret == Build(PascalCase, RoutesOf(values)[..i])
    {
      assert RoutesOf(values)[..i + 1][..i] == RoutesOf(values)[..i];
      ret := InsertRoute(ret, values[i].0, values[i].1);
    }
    assert RoutesOf(values)[..|values|] == RoutesOf(values);
  }

  // ---------- Following a route ----------

  function Lookup(table: Table, class_: string, member: string): Option<Member> {
    if class_ in table && member in table[class_] then Some(table[class_][member]) else None
  }

  // Follow members from a class on; the walk is complete when it ends at a type.
  function Walk(table: Table, class_: string, parts: seq<string>): Option<string>
    decreases |parts|
  {
    if parts == [] then None
    else
      match Lookup(table, class_, parts[0])
      case None => None
      case Some(m) =>
        if |parts| == 1 then (if m.isTree then None else Some(m.tp))
        else if m.isTree then Walk(table, m.tp, parts[1..])
        else None
  }
}
