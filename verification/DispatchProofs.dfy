// Which command answers a request: exact names first, then the first prefix; and what
// a JSON batch, as the client sends it, is answered with.
module DispatchProofs {
  import opened Common
  import opened Text
  import opened HyprCtl
  import opened BatchProofs
  import HyprctlClient

  // The first command that matches exactly stands at index i.
  ghost predicate ExactAt<W>(commands: seq<Command<W>>, body: string, i: nat) {
    && i < |commands| && commands[i].exact && commands[i].name == body
    && forall j :: 0 <= j < i ==> !(commands[j].exact && commands[j].name == body)
  }

  ghost predicate NoExact<W>(commands: seq<Command<W>>, body: string) {
    forall c :: c in commands && c.exact ==> c.name != body
  }

  ghost predicate PrefixAt<W>(commands: seq<Command<W>>, body: string, i: nat) {
    && i < |commands| && !commands[i].exact && commands[i].name <= body
    && forall j :: 0 <= j < i ==> commands[j].exact || !(commands[j].name <= body)
  }

  ghost predicate NoPrefix<W>(commands: seq<Command<W>>, body: string) {
    forall c :: c in commands && !c.exact ==> !(c.name <= body)
  }

  lemma {:induction false} FirstExactAt<W>(commands: seq<Command<W>>, body: string, i: nat)
    requires ExactAt(commands, body, i)
    ensures FirstExact(commands, body) == Some(commands[i])
  {
    if i > 0 {
      FirstExactAt(commands[1..], body, i - 1);
    }
  }

  lemma {:induction false} FirstPrefixAt<W>(commands: seq<Command<W>>, body: string, i: nat)
    requires PrefixAt(commands, body, i)
    ensures FirstPrefix(commands, body) == Some(commands[i])
  {
    if i > 0 {
      assert !(!commands[0].exact && commands[0].name <= body);
      FirstPrefixAt(commands[1..], body, i - 1);
    }
  }

  // The place of the first command that matches exactly, or of the first prefix, if any.
  ghost predicate IsExact<W>(commands: seq<Command<W>>, body: string, at: Option<nat>) {
    if at == None then NoExact(commands, body) else ExactAt(commands, body, at.value)
  }

  ghost predicate IsPrefix<W>(commands: seq<Command<W>>, body: string, at: Option<nat>) {
    if at == None then NoPrefix(commands, body) else PrefixAt(commands, body, at.value)
  }

  // Every request has exactly one such pair of places.
  lemma {:induction false} PlacesExist<W>(commands: seq<Command<W>>, body: string)
    returns (e: Option<nat>, p: Option<nat>)
    ensures IsExact(commands, body, e) && IsPrefix(commands, body, p)
    ensures forall e' :: IsExact(commands, body, e') ==> e' == e
    ensures forall p' :: IsPrefix(commands, body, p') ==> p' == p
  {
    e := PlaceOfExact(commands, body, 0);
    p := PlaceOfPrefix(commands, body, 0);
  }

  lemma {:induction false} PlaceOfExact<W>(commands: seq<Command<W>>, body: string, i: nat) returns (e: Option<nat>)
    requires i <= |commands| && forall j :: 0 <= j < i ==> !(commands[j].exact && commands[j].name == body)
    ensures IsExact(commands, body, e)
    decreases |commands| - i
  {
    if i == |commands| {
      e := None;
    } else if commands[i].exact && commands[i].name == body {
      e := Some(i);
    } else {
      e := PlaceOfExact(commands, body, i + 1);
    }
  }

  lemma {:induction false} PlaceOfPrefix<W>(commands: seq<Command<W>>, body: string, i: nat) returns (p: Option<nat>)
    requires i <= |commands| && forall j :: 0 <= j < i ==> commands[j].exact || !(commands[j].name <= body)
    ensures IsPrefix(commands, body, p)
    decreases |commands| - i
  {
    if i == |commands| {
      p := None;
    } else if !commands[i].exact && commands[i].name <= body {
      p := Some(i);
    } else {
      p := PlaceOfPrefix(commands, body, i + 1);
    }
  }

  // What the first exact command says, and the compositor after it; without one, nothing.
  ghost function ExactSays<W>(server: Server<W>, q: Request, world: W, e: Option<nat>): (string, W)
    requires Registry(server) && IsExact(server.commands, q.body, e)
  {
    if e == None then ("", world)
    else
      assert server.commands[e.value] in server.commands;
      server.commands[e.value].handler.fn(q.format, q.params, q.body, world)
  }

  // What the first prefix says after that: the batch command with the replies to its
  // commands, any other with its own.
  ghost function PrefixSays<W>(server: Server<W>, q: Request, world: W, p: nat): (string, State<W>)
    requires Registry(server) && PrefixAt(server.commands, q.body, p)
  {
    var c := server.commands[p];
    if c.handler.Batch? then
      assert c in server.commands;
      ServeBatch(server, State(q.params, world), q.body[9..])
    else
      var (r, w) := c.handler.fn(q.format, q.params, q.body, world); (r, State(q.params, w))
  }

  // Who answers a request, whatever is registered. An exact command with something to
  // say keeps the prefixes from running; one with nothing to say has run all the same.
  // Nothing to say at the end is an unknown request and is not followed by a reload, but
  // what was done stays done.
  lemma {:induction false} DispatchExact<W>(server: Server<W>, st: State<W>, q: Request, e: Option<nat>,
      p: Option<nat>)
    requires Registry(server) && IsExact(server.commands, q.body, e) && IsPrefix(server.commands, q.body, p)
    ensures var (said, world) := ExactSays(server, q, st.world, e);
            var (reply, after) := if said != "" || p == None then (said, State(q.params, world))
                                  else PrefixSays(server, q, world, p.value);
            Handle(server, st, q) ==
            if reply == "" then ("unknown request", after)
            else (reply, if q.reloadAll then after.(world := server.reload(after.world)) else after)
  {
    NoneFirst(server.commands, q.body);
    if e.Some? {
      FirstExactAt(server.commands, q.body, e.value);
    }
    if p.Some? {
      FirstPrefixAt(server.commands, q.body, p.value);
    }
  }

  lemma {:induction false} NoneFirst<W>(commands: seq<Command<W>>, body: string)
    ensures NoExact(commands, body) <==> FirstExact(commands, body) == None
    ensures NoPrefix(commands, body) <==> FirstPrefix(commands, body) == None
  {}

  // Whatever is registered, no request is left without a reply.
  lemma {:induction false} AlwaysAnswered<W>(server: Server<W>, st: State<W>, q: Request)
    requires Registry(server)
    ensures Handle(server, st, q).0 != ""
  {
    assert forall r: string, st': State<W> :: Finish(server, q, r, st').0 != "";
  }

  // A batch request keeps its flags to itself: none are read from its text, and it is
  // answered by the replies to its commands.
  lemma {:induction false} BatchIsServed<W>(server: Server<W>, st: State<W>, text: string, i: nat)
    requires Registry(server) && NoExact(server.commands, "[[BATCH]]" + text)
    requires PrefixAt(server.commands, "[[BATCH]]" + text, i) && server.commands[i].handler.Batch?
    ensures var (reply, after) := ServeBatch(server, State(Params(false, false), st.world), text);
            Serve(server, st, "[[BATCH]]" + text) == (if reply == "" then "unknown request" else reply, after)
  {
    FirstPrefixAt(server.commands, BATCH + text, i);
    assert (BATCH + text)[|BATCH|..] == text;
    assert StripFlags(BATCH + text) == Request(FormatNormal, false, Params(false, false), BATCH + text);
  }

  // ---------- From the client's text to the server's reply ----------

  // The requests read as these commands under -j.
  ghost predicate ReadAs(requests: seq<string>, cmds: seq<string>) {
    |requests| == |cmds| && forall i :: 0 <= i < |cmds| ==> StripFlags(requests[i]) == JsonOf(cmds[i])
  }

  lemma {:induction false} FlaggedAreRead(cmds: seq<string>)
    ensures ReadAs(TrimmedAll(Flagged(cmds)), cmds)
  {
    forall i | 0 <= i < |cmds|
      ensures StripFlags(TrimmedAll(Flagged(cmds))[i]) == JsonOf(cmds[i])
    {
      FlaggedIsRead(cmds[i]);
    }
  }

  lemma {:induction false} JoinedNonempty(replies: seq<string>)
    requires replies != [] && forall r :: r in replies ==> r != ""
    ensures Joined(replies) != ""
  {
    assert replies[0] in replies;
  }

  // The commands are handled once each, in order, as requests for JSON: from the first of
  // these states, each leaves the next one and gives its reply.
  ghost predicate Handled<W>(server: Server<W>, states: seq<State<W>>, cmds: seq<string>, replies: seq<string>)
    requires Registry(server)
  {
    && |replies| == |cmds| && |states| == |cmds| + 1
    && forall i :: 0 <= i < |cmds| ==> Handle(server, states[i], JsonOf(cmds[i])) == (replies[i], states[i + 1])
  }

  // The states that a list of requests passes through.
  ghost function StatesOf<W>(server: Server<W>, st: State<W>, requests: seq<string>): (states: seq<State<W>>)
    requires Registry(server)
    ensures |states| == |requests| + 1
    ensures forall i :: 0 <= i <= |requests| ==> states[i] == StateBefore(server, st, requests, i)
  {
    seq(|requests| + 1, i requires 0 <= i <= |requests| => StateBefore(server, st, requests, i))
  }

  lemma {:induction false} ServedInTurn<W>(server: Server<W>, st: State<W>, requests: seq<string>, n: nat, i: nat)
    requires Registry(server) && Shorter(requests, n) && i < |requests|
    ensures |ServeAll(server, st, requests, n).0| == |requests|
    ensures Serve(server, StateBefore(server, st, requests, i), requests[i]) ==
            (ServeAll(server, st, requests, n).0[i], StateBefore(server, st, requests, i + 1))
  {
    ServeAllState(server, st, requests, n);
    ServeAllReply(server, st, requests, n, i);
    StateBeforeStep(server, st, requests, i);
  }

  lemma {:induction false} FlaggedBatch<W>(server: Server<W>, st: State<W>, cmds: seq<string>)
    returns (states: seq<State<W>>, replies: seq<string>)
    requires Registry(server) && forall c :: c in cmds ==> IsCommand(c)
    ensures Handled(server, states, cmds, replies) && states[0] == st
    ensures ServeBatch(server, st, Join(Flagged(cmds))) == (Joined(replies), states[|cmds|])
  {
    var text, requests := Join(Flagged(cmds)), TrimmedAll(Flagged(cmds));
    ServerReads(cmds);
    RequestsAreShort(text);
    FlaggedAreRead(cmds);
    ServeAllState(server, st, requests, |text|);
    states := StatesOf(server, st, requests);
    replies := ServeAll(server, st, requests, |text|).0;
    forall i | 0 <= i < |cmds|
      ensures Handle(server, states[i], JsonOf(cmds[i])) == (replies[i], states[i + 1])
    {
      ServedInTurn(server, st, requests, |text|, i);
    }
  }

  lemma {:induction false} RepliesNonempty<W>(server: Server<W>, states: seq<State<W>>, cmds: seq<string>,
      replies: seq<string>)
    requires Registry(server) && cmds != [] && Handled(server, states, cmds, replies)
    ensures Joined(replies) != ""
  {
    forall i | 0 <= i < |cmds|
      ensures replies[i] != ""
    {
      AlwaysAnswered(server, states[i], JsonOf(cmds[i]));
      assert Handle(server, states[i], JsonOf(cmds[i])) == (replies[i], states[i + 1]);
    }
    JoinedNonempty(replies);
  }

  // End to end: what the client sends for a -j batch is answered by the JSON replies to
  // the rewritten commands, joined by three newlines; without a ';' in them those are the
  // commands as typed.
  lemma {:induction false} JsonBatchAnswered<W>(server: Server<W>, st: State<W>, word: string, cmds: seq<string>,
      gaps: seq<string>, b: nat)
    requires ' ' !in word && |cmds| > 0 && |gaps| == |cmds| - 1
    requires forall g, c :: g in gaps && c in g ==> c in {' ', '\t', '\n', 12 as char, '\r'}
    requires forall i :: 1 <= i < |cmds| && cmds[i] != [] ==> cmds[i][0] !in {' ', '\t', '\n', 12 as char, '\r'}
    requires forall c :: c in cmds ==> IsCommand(c)
    requires var rq := HyprctlClient.BatchText(word + " " + Typed(cmds, gaps), true);
             && Registry(server) && NoExact(server.commands, rq)
             && PrefixAt(server.commands, rq, b) && server.commands[b].handler.Batch?
    ensures exists states, replies ::
              && Handled(server, states, RewrittenAll(cmds), replies)
              && states[0] == State(Params(false, false), st.world)
              && Serve(server, st, HyprctlClient.BatchText(word + " " + Typed(cmds, gaps), true)) ==
                 (Joined(replies), states[|cmds|])
    ensures (forall c :: c in cmds ==> ';' !in c) ==> RewrittenAll(cmds) == cmds
  {
    var run := RewrittenAll(cmds);
    GapsAreSpaces(gaps);
    ClientSends(word, cmds, gaps);
    AllRewritten(cmds);
    var states, replies := FlaggedBatch(server, State(Params(false, false), st.world), run);
    RepliesNonempty(server, states, run, replies);
    BatchIsServed(server, st, Join(Flagged(run)), b);
  }
}
