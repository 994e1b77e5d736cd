// The compositor's side of the hyprctl text protocol: CHyprCtl::getReply strips the
// flags and dispatches, dispatchBatch splits "[[BATCH]]" requests on ';' outside
// brackets and answers each command through getReply again.
module HyprCtl {
  import opened Common
  import opened Text

  datatype Format = FormatNormal | FormatJson

  // m_currentRequestParams
  datatype Params = Params(all: bool, sysInfoConfig: bool)

  // A registered command is the batch command, or runs some code: it replies, and
  // leaves the compositor (a W) in a new state.
  datatype Handler<!W> = Batch | Call(fn: (Format, Params, string, W) -> (string, W))

  datatype Command<!W> = Command(name: string, exact: bool, handler: Handler<W>)

  // The registered commands, and what a request with the reload flag does at its end.
  datatype Server<!W> = Server(commands: seq<Command<W>>, reload: W -> W)

  const BATCH: string := "[[BATCH]]"
  const DELIMITER: string := "\n\n\n"

  // The batch command is registered under its own name, as a prefix.
  ghost predicate Registry<W>(server: Server<W>) {
    forall c :: c in server.commands && c.handler.Batch? ==> !c.exact && c.name == BATCH
  }

  // ---------- Flags ----------

  datatype Request = Request(format: Format, reloadAll: bool, params: Params, body: string)

  // Where the flag loop stops: the first '/' or ' '.
  function HeadEnd(s: string): (i: nat)
    ensures i <= |s|
    ensures '/' !in s[..i] && ' ' !in s[..i]
    ensures i < |s| ==> s[i] == '/' || s[i] == ' '
  {
    if s == [] || s[0] == '/' || s[0] == ' ' then 0 else
      var i := 1 + HeadEnd(s[1..]);
      assert s[..i] == [s[0]] + s[1..][..i - 1];
      i
  }

  function WithFlags(head: string, body: string): Request {
    Request(if 'j' in head then FormatJson else FormatNormal, 'r' in head, Params('a' in head, 'c' in head), body)
  }

  // What a request asks for, and the text that is compared with command names.
  function StripFlags(request: string): Request {
    if BATCH <= request || '/' !in request then WithFlags([], request)
    else
      var i := HeadEnd(request);
      WithFlags(request[..i], if i < |request| && request[i] == '/' then request[i + 1..] else request)
  }

  lemma {:induction false} FlagSeen(head: string, c: char, body: string)
    ensures var before, after := WithFlags(head, body), WithFlags(head + [c], body);
            after == before.(format := if c == 'j' then FormatJson else before.format,
                             reloadAll := before.reloadAll || c == 'r',
                             params := Params(before.params.all || c == 'a', before.params.sysInfoConfig || c == 'c'))
  {
    assert forall x :: x in head + [c] <==> x in head || x == c;
  }

  method ParseFlags(request: string) returns (q: Request)
    ensures q == StripFlags(request)
  {
    var format, reloadAll, all, sysInfoConfig := FormatNormal, false, false, false;
    var body := request;
    if !(BATCH <= request) && '/' in request {
      var sepIndex := 0;
      var i := 0;
      while i < |request|
        invariant i <= HeadEnd(request) && sepIndex == i
        invariant Request(format, reloadAll, Params(all, sysInfoConfig), body) == WithFlags(request[..i], request)
      {
        var c := request[i];
        if c == '/' {
          HeadEndIs(request, i);
          break;
        }
        if c == ' ' {
          HeadEndIs(request, i);
          sepIndex := |request|;
          break;
        }
        HeadPasses(request, i);
        assert request[..i + 1] == request[..i] + [c];
        FlagSeen(request[..i], c, request);
        sepIndex := sepIndex + 1;
        i := i + 1;
        if c == 'j' {
          format := FormatJson;
        } else if c == 'r' {
          reloadAll := true;
        } else if c == 'a' {
          all := true;
        } else if c == 'c' {
          sysInfoConfig := true;
        }
      }
      if sepIndex < |request| {
        body := request[sepIndex + 1..];
      }
    }
    q := Request(format, reloadAll, Params(all, sysInfoConfig), body);
  }

  lemma {:induction false} HeadEndIs(s: string, i: nat)
    requires i < |s| && i <= HeadEnd(s) && (s[i] == '/' || s[i] == ' ')
    ensures HeadEnd(s) == i
  {
    assert forall k :: 0 <= k < HeadEnd(s) ==> s[k] in s[..HeadEnd(s)];
  }

  lemma {:induction false} HeadPasses(s: string, i: nat)
    requires i < |s| && i <= HeadEnd(s) && s[i] != '/' && s[i] != ' '
    ensures i + 1 <= HeadEnd(s)
  {}

  // ---------- Splitting a batch ----------

  function Nested(depth: int, c: char): int {
    if c == '[' then depth + 1 else if c == ']' then depth - 1 else depth
  }

  // The text still to read, the segment being collected, and the bracket depth.
  // At the end of the text the code pretends to see one more ';'.
  function Split(text: string, current: string, depth: int): seq<string>
    decreases |text|
  {
    if text == [] then
      if depth == 0 then [current] else []
    else if text[0] == ';' && depth == 0 then [current] + Split(text[1..], [], 0)
    else Split(text[1..], current + [text[0]], Nested(depth, text[0]))
  }

  // Empty segments are not dispatched; the others are trimmed first.
  function Dispatched(segments: seq<string>): seq<string> {
    if segments == [] then [] else
      var last := segments[|segments| - 1];
      Dispatched(segments[..|segments| - 1]) + if last == [] then [] else [Trim(last)]
  }

  function Requests(text: string): seq<string> {
    Dispatched(Split(text, [], 0))
  }

  // ---------- Serving ----------

  datatype State<W> = State(params: Params, world: W)

  function FirstExact<W>(commands: seq<Command<W>>, body: string): (c: Option<Command<W>>)
    ensures c.Some? ==> c.value in commands && c.value.exact && c.value.name == body
    ensures c == None ==> forall d :: d in commands && d.exact ==> d.name != body
  {
    if commands == [] then None
    else if commands[0].exact && commands[0].name == body then Some(commands[0])
    else FirstExact(commands[1..], body)
  }

  function FirstPrefix<W>(commands: seq<Command<W>>, body: string): (c: Option<Command<W>>)
    ensures c.Some? ==> c.value in commands && !c.value.exact && c.value.name <= body
    ensures c == None ==> forall d :: d in commands && !d.exact ==> !(d.name <= body)
  {
    if commands == [] then None
    else if !commands[0].exact && commands[0].name <= body then Some(commands[0])
    else FirstPrefix(commands[1..], body)
  }

  // Replies, each followed by the delimiter.
  function Delimited(replies: seq<string>): string {
    if replies == [] then [] else
      Delimited(replies[..|replies| - 1]) + replies[|replies| - 1] + DELIMITER
  }

  // Replies with the delimiter between them only.
  function Joined(replies: seq<string>): string {
    if replies == [] then []
    else if |replies| == 1 then replies[0]
    else Joined(replies[..|replies| - 1]) + DELIMITER + replies[|replies| - 1]
  }

  ghost predicate Shorter(requests: seq<string>, n: nat) {
    forall r :: r in requests ==> |r| <= n
  }

  // What one command replies, and the compositor after it.
  function Answer<W>(c: Command<W>, q: Request, world: W): (string, W)
    requires c.handler.Call?
  {
    c.handler.fn(q.format, q.params, q.body, world)
  }

  // The exact command runs first; its effect stays even if it has nothing to say.
  function AfterExact<W>(server: Server<W>, q: Request, world: W): (string, W)
    requires Registry(server)
  {
    var exact := FirstExact(server.commands, q.body);
    if exact.Some? then Answer(exact.value, q, world) else ("", world)
  }

  // A request whose flags have been read: exact commands first, then prefixes, then
  // "unknown request".
  function Handle<W>(server: Server<W>, st: State<W>, q: Request): (string, State<W>)
    requires Registry(server)
    decreases |q.body|, 1, 0
  {
    var (r1, w1) := AfterExact(server, q, st.world);
    var prefix := FirstPrefix(server.commands, q.body);
    var (r2, st2) :=
      if r1 != "" || prefix == None then (r1, State(q.params, w1))
      else if prefix.value.handler.Batch? then ServeBatch(server, State(q.params, w1), q.body[|BATCH|..])
      else var (r, w) := Answer(prefix.value, q, w1); (r, State(q.params, w));
    Finish(server, q, r2, st2)
  }

  function Serve<W>(server: Server<W>, st: State<W>, request: string): (string, State<W>)
    requires Registry(server)
    decreases |request|, 2, 0
  {
    Handle(server, st, StripFlags(request))
  }

  // Nothing to say is an unknown request, and is not followed by a reload.
  function Finish<W>(server: Server<W>, q: Request, reply: string, st: State<W>): (string, State<W>) {
    if reply == "" then ("unknown request", st)
    else (reply, if q.reloadAll then st.(world := server.reload(st.world)) else st)
  }

  function ServeBatch<W>(server: Server<W>, st: State<W>, text: string): (string, State<W>)
    requires Registry(server)
    decreases |text|, 4, 0
  {
    RequestsAreShort(text);
    var (replies, st') := ServeAll(server, st, Requests(text), |text|);
    (Joined(replies), st')
  }

  function ServeAll<W>(server: Server<W>, st: State<W>, requests: seq<string>, n: nat): (seq<string>, State<W>)
    requires Registry(server) && Shorter(requests, n)
    decreases n, 3, |requests|
  {
    if requests == [] then ([], st) else
      var (replies, st1) := ServeAll(server, st, requests[..|requests| - 1], n);
      var (reply, st2) := Serve(server, st1, requests[|requests| - 1]);
      (replies + [reply], st2)
  }

  lemma {:induction false} TrimIsShorter(s: string)
    ensures |TrimLeft(s)| <= |s| && |TrimRight(s)| <= |s|
  {
    if s != [] {
      TrimIsShorter(s[1..]);
      TrimIsShorter(s[..|s| - 1]);
    }
  }

  lemma {:induction false} SplitIsShort(text: string, current: string, depth: int)
    ensures Shorter(Split(text, current, depth), |current| + |text|)
    decreases |text|
  {
    if text != [] {
      var c := text[0];
      SplitIsShort(text[1..], current + [c], Nested(depth, c));
      if c == ';' && depth == 0 {
        SplitIsShort(text[1..], [], 0);
      }
    }
  }

  lemma {:induction false} DispatchedIsShort(segments: seq<string>, n: nat)
    requires Shorter(segments, n)
    ensures Shorter(Dispatched(segments), n)
  {
    if segments != [] {
      var last := segments[|segments| - 1];
      DispatchedIsShort(segments[..|segments| - 1], n);
      TrimIsShorter(last);
      TrimIsShorter(TrimLeft(last));
      assert last in segments;
    }
  }

  lemma {:induction false} RequestsAreShort(text: string)
    ensures Shorter(Requests(text), |text|)
  {
    SplitIsShort(text, [], 0);
    DispatchedIsShort(Split(text, [], 0), |text|);
  }

  lemma {:induction false} DropLastDelimiter(replies: seq<string>)
    ensures replies == [] ==> Delimited(replies) == []
    ensures replies != [] ==> Delimited(replies) == Joined(replies) + DELIMITER
  {
    if |replies| == 1 {
      assert Delimited(replies[..0]) == [];
    } else if |replies| > 1 {
      DropLastDelimiter(replies[..|replies| - 1]);
    }
  }

  // ---------- The batch loop, one character at a time ----------

  // The segments still to come when the loop is at index i, with the current
  // segment starting at idx.
  function Rest(text: string, idx: nat, i: nat, depth: int): seq<string>
    requires idx <= i
  {
    if i <= |text| then Split(text[i..], text[idx..i], depth) else []
  }

  lemma {:induction false} RestStep(text: string, idx: nat, i: nat, depth: int)
    requires idx <= i <= |text| && (i < |text| ==> !(text[i] == ';' && depth == 0)) && (i == |text| ==> depth != 0)
    ensures Rest(text, idx, i, depth) == Rest(text, idx, i + 1, if i < |text| then Nested(depth, text[i]) else depth)
  {
    if i < |text| {
      assert text[i..][1..] == text[i + 1..];
      assert text[idx..i] + [text[i]] == text[idx..i + 1];
    }
  }

  lemma {:induction false} RestCut(text: string, idx: nat, i: nat)
    requires idx <= i <= |text| && (i < |text| ==> text[i] == ';')
    ensures Rest(text, idx, i, 0) == [text[idx..i]] + Rest(text, i + 1, i + 1, 0)
  {
    if i < |text| {
      assert text[i..][1..] == text[i + 1..];
      assert text[i + 1..i + 1] == [];
    }
  }

  lemma {:induction false} DispatchedSnoc(done: seq<string>, segment: string)
    ensures Dispatched(done + [segment]) == Dispatched(done) + if segment == [] then [] else [Trim(segment)]
  {
    assert (done + [segment])[..|done|] == done;
  }

  // The first k segments of a batch, as they are dispatched.
  function Sent(text: string, k: nat): seq<string>
    requires k <= |Split(text, [], 0)|
  {
    Dispatched(Split(text, [], 0)[..k])
  }

  // After k segments the loop stands at index i with a segment begun at idx.
  ghost predicate At(text: string, k: nat, idx: nat, i: nat, depth: int)
    requires idx <= i
  {
    k <= |Split(text, [], 0)| && Split(text, [], 0)[k..] == Rest(text, idx, i, depth)
  }

  lemma {:induction false} TakeSegment(text: string, k: nat, idx: nat, i: nat)
    requires idx <= i <= |text| && (i < |text| ==> text[i] == ';') && At(text, k, idx, i, 0)
    ensures At(text, k + 1, i + 1, i + 1, 0)
    ensures idx == i ==> Sent(text, k + 1) == Sent(text, k)
    ensures idx < i ==> Sent(text, k + 1) == Sent(text, k) + [Trim(text[idx..i])]
    ensures Shorter(Sent(text, k + 1), |text|)
  {
    var segments := Split(text, [], 0);
    RestCut(text, idx, i);
    assert segments[k] == segments[k..][0] == text[idx..i];
    assert segments[k + 1..] == segments[k..][1..];
    assert segments[..k + 1] == segments[..k] + [text[idx..i]];
    DispatchedSnoc(segments[..k], text[idx..i]);
    SplitIsShort(text, [], 0);
    DispatchedIsShort(segments[..k + 1], |text|);
  }

  lemma {:induction false} AtStart(text: string)
    ensures At(text, 0, 0, 0, 0) && Sent(text, 0) == []
  {
    assert text[0..] == text && text[0..0] == [];
  }

  lemma {:induction false} AtStep(text: string, k: nat, idx: nat, i: nat, depth: int, ch: char)
    requires idx <= i <= |text| && At(text, k, idx, i, depth)
    requires ch == (if i < |text| then text[i] else ';') && !(ch == ';' && depth == 0)
    ensures At(text, k, idx, i + 1, Nested(depth, ch))
  {
    RestStep(text, idx, i, depth);
  }

  lemma {:induction false} AtEnd(text: string, k: nat, idx: nat, i: nat, depth: int)
    requires idx <= i && i > |text| && At(text, k, idx, i, depth)
    ensures Sent(text, k) == Requests(text)
  {
    assert Split(text, [], 0)[..k] == Split(text, [], 0);
  }

  lemma {:induction false} ServeAllSnoc<W>(server: Server<W>, st: State<W>, requests: seq<string>,
      request: string, n: nat)
    requires Registry(server) && Shorter(requests + [request], n)
    ensures Shorter(requests, n)
    ensures var (replies, st1) := ServeAll(server, st, requests, n);
            var (reply, st2) := Serve(server, st1, request);
            ServeAll(server, st, requests + [request], n) == (replies + [reply], st2)
  {}

  lemma {:induction false} DelimitedSnoc(replies: seq<string>, reply: string)
    ensures Delimited(replies + [reply]) == Delimited(replies) + (reply + DELIMITER)
  {
    assert (replies + [reply])[..|replies|] == replies;
  }

  // The final `reply.substr(0, max(size - 3, 0))`.
  function CutDelimiter(reply: string): string {
    if |reply| >= |DELIMITER| then reply[..|reply| - |DELIMITER|] else ""
  }

  lemma {:induction false} BatchAnswered<W>(server: Server<W>, st: State<W>, text: string,
      replies: seq<string>, now: State<W>)
    requires Registry(server) && Shorter(Requests(text), |text|)
    requires ServeAll(server, st, Requests(text), |text|) == (replies, now)
    ensures ServeBatch(server, st, text) == (CutDelimiter(Delimited(replies)), now)
  {
    DropLastDelimiter(replies);
  }

  class CHyprCtl<W> {
    const server: Server<W>
    var params: Params
    var world: W

    constructor (server: Server<W>, world: W)
      ensures this.server == server && Now() == State(Params(false, false), world)
    {
      this.server := server;
      this.world := world;
      params := Params(false, false);
    }

    function Now(): State<W>
      reads this
    {
      State(params, world)
    }

    method Run(c: Command<W>, q: Request) returns (result: string)
      requires c.handler.Call?
      modifies this`world
      ensures (result, world) == Answer(c, q, old(world))
    {
      var answer := c.handler.fn(q.format, q.params, q.body, world);
      result := answer.0;
      world := answer.1;
    }

    method GetReply(request: string) returns (result: string)
      requires Registry(server)
      modifies this
      ensures (result, Now()) == Serve(server, old(Now()), request)
      decreases |request|, 2, 0
    {
      var q := ParseFlags(request);
      params := q.params;
      result := "";

      var exact := FirstExact(server.commands, q.body);
      if exact.Some? {
        result := Run(exact.value, q);
      }
      if result == "" {
        var prefix := FirstPrefix(server.commands, q.body);
        if prefix.Some? {
          if prefix.value.handler.Batch? {
            result := DispatchBatch(q.body);
          } else {
            result := Run(prefix.value, q);
          }
        }
      }
      if result == "" {
        return "unknown request";
      }
      if q.reloadAll {
        world := server.reload(world);
      }
    }

    // `reply += getReply(command).append(DELIMITER)`, after the requests in `pending`.
    method Append(command: string, sofar: string, ghost st: State<W>, ghost pending: seq<string>,
        ghost replies: seq<string>, ghost n: nat)
      returns (reply: string, ghost replies': seq<string>)
      requires Registry(server) && Shorter(pending, n) && Shorter(pending + [command], n)
      requires ServeAll(server, st, pending, n) == (replies, Now()) && sofar == Delimited(replies)
      modifies this
      ensures ServeAll(server, st, pending + [command], n) == (replies', Now()) && reply == Delimited(replies')
      decreases n, 2, 1
    {
      ServeAllSnoc(server, st, pending, command, n);
      assert command in pending + [command];
      var r := GetReply(command);
      DelimitedSnoc(replies, r);
      replies' := replies + [r];
      reply := sofar + (r + DELIMITER);
    }

    // A ';' outside brackets, or the end of the text.
    method Cut(text: string, idx: nat, i: nat, sofar: string, ghost st: State<W>, ghost k: nat,
        ghost replies: seq<string>)
      returns (reply: string, ghost replies': seq<string>)
      requires Registry(server) && idx <= i <= |text| && (i < |text| ==> text[i] == ';') && At(text, k, idx, i, 0)
      requires Shorter(Sent(text, k), |text|)
      requires ServeAll(server, st, Sent(text, k), |text|) == (replies, Now()) && sofar == Delimited(replies)
      modifies this
      ensures At(text, k + 1, i + 1, i + 1, 0) && Shorter(Sent(text, k + 1), |text|)
      ensures ServeAll(server, st, Sent(text, k + 1), |text|) == (replies', Now())
      ensures reply == Delimited(replies')
      decreases |text|, 2, 2
    {
      TakeSegment(text, k, idx, i);
      reply, replies' := sofar, replies;
      if idx < i {
        reply, replies' := Append(Trim(text[idx..i]), sofar, st, Sent(text, k), replies, |text|);
      }
    }

    method DispatchBatch(request: string) returns (reply: string)
      requires Registry(server) && |request| >= |BATCH|
      modifies this
      ensures (reply, Now()) == ServeBatch(server, old(Now()), request[|BATCH|..])
      decreases |request|, 1, 0
    {
      var text := request[|BATCH|..];
      reply := "";
      var bracket: int := 0;
      var idx: nat := 0;
      var i: nat := 0;
      ghost var k: nat := 0;
      ghost var replies: seq<string> := [];
      AtStart(text);
      while i <= |text|
        invariant i <= |text| + 1 && idx <= i
        invariant At(text, k, idx, i, bracket)
        invariant Shorter(Sent(text, k), |text|)
        invariant ServeAll(server, old(Now()), Sent(text, k), |text|) == (replies, Now())
        invariant reply == Delimited(replies)
        decreases |text| + 1 - i
      {
        var ch := if i < |text| then text[i] else ';';
        if ch == ';' && bracket == 0 {
          reply, replies := Cut(text, idx, i, reply, old(Now()), k, replies);
          k := k + 1;
          idx := i + 1;
        } else {
          AtStep(text, k, idx, i, bracket, ch);
          if ch == '[' {
            bracket := bracket + 1;
          } else if ch == ']' {
            bracket := bracket - 1;
          }
        }
        i := i + 1;
      }
      AtEnd(text, k, idx, i, bracket);
      BatchAnswered(server, old(Now()), text, replies, Now());
      reply := CutDelimiter(reply);
    }
  }
}
