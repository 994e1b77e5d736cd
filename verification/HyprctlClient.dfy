// The client's side: hyprctl's batchRequest builds the "[[BATCH]]" text, under -j
// with the JSON flag put in front of every command.
module HyprctlClient {
  import opened Text

  const BATCH: string := "[[BATCH]]"

  // \s in RE2; unlike std::isspace it leaves out the vertical tab.
  predicate ReSpace(c: char) {
    c == ' ' || c == '\t' || c == '\n' || c as int == 12 || c == '\r'
  }

  function SkipSpaces(s: string): (t: string)
    ensures |t| <= |s|
  {
    if s != [] && ReSpace(s[0]) then SkipSpaces(s[1..]) else s
  }

  // The global replacement of a semicolon and any spaces after it by ";j/".
  function Rewrite(s: string): string
    decreases |s|
  {
    if s == [] then []
    else if s[0] == ';' then ";j/" + Rewrite(SkipSpaces(s[1..]))
    else [s[0]] + Rewrite(s[1..])
  }

  function BatchText(arg: string, json: bool): string {
    var space := FirstOf(arg, ' ');
    var commands := if space < |arg| then arg[space + 1..] else arg;
    BATCH + if json then "j/" + Rewrite(commands) else commands
  }

  method BatchRequest(arg: string, json: bool) returns (rq: string)
    ensures rq == BatchText(arg, json)
  {
    var space := FirstOf(arg, ' ');
    var commands := arg[if space < |arg| then space + 1 else 0..];
    if json {
      commands := Rewrite(commands);
      commands := "j/" + commands;
    }
    rq := BATCH + commands;
  }
}
