// The two ends of the batch protocol agree: splitting undoes joining, and what the
// client sends under -j is what the server runs.
module BatchProofs {
  import opened Common
  import opened Text
  import opened HyprCtl
  import HyprctlClient

  // ---------- Commands ----------

  // The bracket depth after the first i characters.
  function DepthAt(s: string, i: nat): int
    requires i <= |s|
  {
    if i == 0 then 0 else Nested(DepthAt(s, i - 1), s[i - 1])
  }

  // How often a character occurs.
  ghost function Times(s: string, c: char): nat {
    multiset(s)[c]
  }

  // The depth is the number of opening less that of closing brackets so far.
  lemma {:induction false} DepthIsCount(s: string, i: nat)
    requires i <= |s|
    ensures DepthAt(s, i) == Times(s[..i], '[') - Times(s[..i], ']')
  {
    if i > 0 {
      DepthIsCount(s, i - 1);
      assert s[..i] == s[..i - 1] + [s[i - 1]];
    }
  }

  // Brackets return to zero and every ';' stands at a nonzero depth.
  ghost predicate IsCommand(s: string) {
    DepthAt(s, |s|) == 0 && forall i :: 0 <= i < |s| && s[i] == ';' ==> DepthAt(s, i) != 0
  }

  function Join(segments: seq<string>): string {
    if segments == [] then []
    else if |segments| == 1 then segments[0]
    else segments[0] + ";" + Join(segments[1..])
  }

  // ---------- Splitting undoes joining ----------

  lemma {:induction false} SplitThrough(s: string, i: nat, rest: string)
    requires i <= |s| && forall k :: i <= k < |s| && s[k] == ';' ==> DepthAt(s, k) != 0
    ensures Split(s[i..] + rest, s[..i], DepthAt(s, i)) == Split(rest, s, DepthAt(s, |s|))
    decreases |s| - i
  {
    if i == |s| {
      assert s[i..] + rest == rest && s[..i] == s;
    } else {
      assert (s[i..] + rest)[1..] == s[i + 1..] + rest;
      assert s[..i] + [s[i]] == s[..i + 1];
      SplitThrough(s, i + 1, rest);
    }
  }

  lemma {:induction false} SplitCommand(s: string, rest: string)
    requires IsCommand(s)
    ensures Split(s + rest, [], 0) == Split(rest, s, 0)
  {
    SplitThrough(s, 0, rest);
    assert s[0..] == s && s[..0] == [];
  }

  lemma {:induction false} SplitJoined(segments: seq<string>)
    requires segments != [] && forall s :: s in segments ==> IsCommand(s)
    ensures Split(Join(segments), [], 0) == segments
  {
    var s := segments[0];
    if |segments| == 1 {
      SplitCommand(s, []);
      assert s + [] == s;
    } else {
      var rest := Join(segments[1..]);
      SplitCommand(s, ";" + rest);
      assert s + ";" + rest == s + (";" + rest);
      assert (";" + rest)[1..] == rest;
      SplitJoined(segments[1..]);
    }
  }

  // No ';' at depth zero so far.
  ghost predicate IsStart(s: string) {
    forall i :: 0 <= i < |s| && s[i] == ';' ==> DepthAt(s, i) != 0
  }

  lemma {:induction false} DepthOfStart(s: string, t: string, i: nat)
    requires i <= |s|
    ensures DepthAt(s + t, i) == DepthAt(s, i)
  {
    if i > 0 {
      DepthOfStart(s, t, i - 1);
    }
  }

  lemma {:induction false} StartGrows(s: string, c: char)
    requires IsStart(s) && !(c == ';' && DepthAt(s, |s|) == 0)
    ensures IsStart(s + [c]) && DepthAt(s + [c], |s| + 1) == Nested(DepthAt(s, |s|), c)
  {
    DepthOfStart(s, [c], |s|);
    forall i | 0 <= i < |s + [c]| && (s + [c])[i] == ';'
      ensures DepthAt(s + [c], i) != 0
    {
      DepthOfStart(s, [c], i);
    }
  }

  // Whatever the text, every segment it is split into is a command.
  lemma {:induction false} SegmentsAreCommands(text: string, current: string)
    requires IsStart(current)
    ensures forall s :: s in Split(text, current, DepthAt(current, |current|)) ==> IsCommand(s)
    decreases |text|
  {
    if text != [] {
      if text[0] == ';' && DepthAt(current, |current|) == 0 {
        SegmentsAreCommands(text[1..], []);
      } else {
        StartGrows(current, text[0]);
        SegmentsAreCommands(text[1..], current + [text[0]]);
      }
    }
  }

  // Splitting undoes joining exactly when every segment is a command.
  lemma {:induction false} SplitUndoesJoin(segments: seq<string>)
    requires segments != []
    ensures Split(Join(segments), [], 0) == segments <==> forall s :: s in segments ==> IsCommand(s)
  {
    SegmentsAreCommands(Join(segments), []);
    if forall s :: s in segments ==> IsCommand(s) {
      SplitJoined(segments);
    }
  }

  function TrimmedAll(segments: seq<string>): seq<string> {
    seq(|segments|, i requires 0 <= i < |segments| => Trim(segments[i]))
  }

  lemma {:induction false} DispatchedAll(segments: seq<string>)
    requires forall s :: s in segments ==> s != []
    ensures Dispatched(segments) == TrimmedAll(segments)
  {
    if segments != [] {
      var n := |segments| - 1;
      assert segments[n] in segments;
      assert forall s :: s in segments[..n] ==> s in segments;
      DispatchedAll(segments[..n]);
      assert TrimmedAll(segments) == TrimmedAll(segments[..n]) + [Trim(segments[n])];
    }
  }

  // Every command is dispatched exactly once, in order, trimmed.
  lemma {:induction false} BatchSplitsBack(segments: seq<string>)
    requires forall s :: s in segments ==> s != [] && IsCommand(s)
    ensures Requests(Join(segments)) == TrimmedAll(segments)
  {
    if segments == [] {
      assert Dispatched([""]) == Dispatched([]) by {
        DispatchedSnoc([], "");
        assert [] + [""] == [""];
      }
    } else {
      SplitJoined(segments);
      DispatchedAll(segments);
    }
  }

  function Nonempty(segments: seq<string>): seq<string> {
    if segments == [] then [] else
      Nonempty(segments[..|segments| - 1]) + if segments[|segments| - 1] == [] then [] else [segments[|segments| - 1]]
  }

  lemma {:induction false} DispatchedNonempty(segments: seq<string>)
    ensures Dispatched(segments) == TrimmedAll(Nonempty(segments))
  {
    if segments != [] {
      var n := |segments| - 1;
      DispatchedNonempty(segments[..n]);
      assert segments[..n] + [segments[n]] == segments;
      DispatchedSnoc(segments[..n], segments[n]);
      TrimmedSnoc(Nonempty(segments[..n]), segments[n]);
    }
  }

  lemma {:induction false} TrimmedSnoc(segments: seq<string>, s: string)
    ensures TrimmedAll(segments + [s]) == TrimmedAll(segments) + [Trim(s)]
    ensures segments + [] == segments && TrimmedAll(segments) + [] == TrimmedAll(segments)
  {}

  // Empty commands are left out, the others keep their order.
  lemma {:induction false} EmptyCommandsAreSkipped(segments: seq<string>)
    requires segments != [] && forall s :: s in segments ==> IsCommand(s)
    ensures Requests(Join(segments)) == TrimmedAll(Nonempty(segments))
  {
    SplitJoined(segments);
    DispatchedNonempty(segments);
  }

  // The reply of i-th request in a batch, given the state its predecessors left.
  ghost function StateBefore<W>(server: Server<W>, st: State<W>, requests: seq<string>, i: nat): State<W>
    requires Registry(server) && i <= |requests|
  {
    if i == 0 then st else Serve(server, StateBefore(server, st, requests, i - 1), requests[i - 1]).1
  }

  lemma {:induction false} StateBeforeStep<W>(server: Server<W>, st: State<W>, requests: seq<string>, i: nat)
    requires Registry(server) && i < |requests|
    ensures StateBefore(server, st, requests, i + 1) ==
            Serve(server, StateBefore(server, st, requests, i), requests[i]).1
  {}

  lemma {:induction false} StateBeforePrefix<W>(server: Server<W>, st: State<W>, requests: seq<string>, m: nat, i: nat)
    requires Registry(server) && i <= m <= |requests|
    ensures StateBefore(server, st, requests[..m], i) == StateBefore(server, st, requests, i)
  {
    if i > 0 {
      StateBeforePrefix(server, st, requests, m, i - 1);
    }
  }

  lemma {:induction false} ServeAllState<W>(server: Server<W>, st: State<W>, requests: seq<string>, n: nat)
    requires Registry(server) && Shorter(requests, n)
    ensures |ServeAll(server, st, requests, n).0| == |requests|
    ensures ServeAll(server, st, requests, n).1 == StateBefore(server, st, requests, |requests|)
    decreases |requests|
  {
    if requests != [] {
      var m := |requests| - 1;
      ServeAllState(server, st, requests[..m], n);
      StateBeforePrefix(server, st, requests, m, m);
    }
  }

  // Serving a list answers each request where its predecessors left off.
  lemma {:induction false} ServeAllReply<W>(server: Server<W>, st: State<W>, requests: seq<string>, n: nat, i: nat)
    requires Registry(server) && Shorter(requests, n) && i < |requests|
    requires |ServeAll(server, st, requests, n).0| == |requests|
    ensures ServeAll(server, st, requests, n).0[i] ==
            Serve(server, StateBefore(server, st, requests, i), requests[i]).0
    decreases |requests|
  {
    var m := |requests| - 1;
    ServeAllState(server, st, requests[..m], n);
    if i == m {
      StateBeforePrefix(server, st, requests, m, m);
    } else {
      ServeAllReply(server, st, requests[..m], n, i);
      StateBeforePrefix(server, st, requests, m, i);
    }
  }

  // Replies to the requests, in order, each served in the state its predecessors left.
  ghost predicate RepliesTo<W>(server: Server<W>, st: State<W>, requests: seq<string>, replies: seq<string>)
    requires Registry(server)
  {
    && |replies| == |requests|
    && forall i :: 0 <= i < |requests| ==>
         replies[i] == Serve(server, StateBefore(server, st, requests, i), requests[i]).0
  }

  lemma {:induction false} ServeAllReplies<W>(server: Server<W>, st: State<W>, requests: seq<string>, n: nat)
    requires Registry(server) && Shorter(requests, n)
    ensures RepliesTo(server, st, requests, ServeAll(server, st, requests, n).0)
  {
    ServeAllState(server, st, requests, n);
    forall i | 0 <= i < |requests|
      ensures ServeAll(server, st, requests, n).0[i] ==
              Serve(server, StateBefore(server, st, requests, i), requests[i]).0
    {
      ServeAllReply(server, st, requests, n, i);
    }
  }

  // The whole batch: the replies to the trimmed commands, in order, joined by three
  // newlines, with no delimiter at the end.
  lemma {:induction false} BatchReply<W>(server: Server<W>, st: State<W>, segments: seq<string>)
    requires Registry(server) && forall s :: s in segments ==> s != [] && IsCommand(s)
    ensures exists replies: seq<string> ::
              && RepliesTo(server, st, TrimmedAll(segments), replies)
              && ServeBatch(server, st, Join(segments)) ==
                 (Joined(replies), StateBefore(server, st, TrimmedAll(segments), |segments|))
  {
    var text := Join(segments);
    BatchSplitsBack(segments);
    RequestsAreShort(text);
    ServeAllState(server, st, Requests(text), |text|);
    ServeAllReplies(server, st, Requests(text), |text|);
  }

  // Three newlines stand between two replies and nowhere else.
  lemma {:induction false} JoinedFromFront(first: string, rest: seq<string>)
    ensures Joined([]) == "" && Joined([first]) == first
    ensures rest != [] ==> Joined([first] + rest) == first + "\n\n\n" + Joined(rest)
  {
    if |rest| == 1 {
      assert ([first] + rest)[..1] == [first];
    } else if |rest| > 1 {
      var n := |rest| - 1;
      JoinedFromFront(first, rest[..n]);
      assert ([first] + rest)[..n + 1] == [first] + rest[..n];
      RegroupTail(first, "\n\n\n", Joined(rest[..n]), "\n\n\n", rest[n]);
    }
  }

  // A text is read as one command exactly when it is one.
  lemma {:induction false} SplitShape(s: string, i: nat)
    requires i <= |s|
    ensures Split(s[i..], s[..i], DepthAt(s, i)) == [s] <==>
            DepthAt(s, |s|) == 0 && forall k :: i <= k < |s| && s[k] == ';' ==> DepthAt(s, k) != 0
    decreases |s| - i
  {
    if i == |s| {
      assert s[..i] == s;
    } else {
      assert s[i..][1..] == s[i + 1..];
      assert s[..i] + [s[i]] == s[..i + 1];
      SplitShape(s, i + 1);
      if s[i] == ';' && DepthAt(s, i) == 0 {
        assert Split(s[i..], s[..i], 0)[0] == s[..i];
      }
    }
  }

  // As many brackets close as open, and no ';' stands where as many have closed as opened.
  ghost predicate IsBalanced(s: string) {
    && Times(s, '[') == Times(s, ']')
    && forall i :: 0 <= i < |s| && s[i] == ';' ==> Times(s[..i], '[') != Times(s[..i], ']')
  }

  lemma {:induction false} CommandIsBalanced(s: string)
    ensures IsCommand(s) <==> IsBalanced(s)
  {
    DepthIsCount(s, |s|);
    assert s[..|s|] == s;
    forall i | 0 <= i < |s|
      ensures DepthAt(s, i) == Times(s[..i], '[') - Times(s[..i], ']')
    {
      DepthIsCount(s, i);
    }
  }

  lemma {:induction false} SplitExact(s: string)
    ensures Split(s, [], 0) == [s] <==> IsBalanced(s)
  {
    SplitShape(s, 0);
    CommandIsBalanced(s);
    assert s[0..] == s && s[..0] == [];
  }

  // ---------- The client's JSON rewrite ----------

  // The five characters that the client eats after a ';'.
  ghost predicate ReSpaces(s: string) {
    forall c :: c in s ==> c in {' ', '\t', '\n', 12 as char, '\r'}
  }

  // Commands as typed: separated by ';' and any spaces.
  function Typed(cmds: seq<string>, gaps: seq<string>): string
    requires |cmds| > 0 && |gaps| == |cmds| - 1
  {
    if |cmds| == 1 then cmds[0] else cmds[0] + (";" + gaps[0] + Typed(cmds[1..], gaps[1..]))
  }

  function Flagged(cmds: seq<string>): seq<string> {
    seq(|cmds|, i requires 0 <= i < |cmds| => "j/" + cmds[i])
  }

  function RewrittenAll(cmds: seq<string>): seq<string> {
    seq(|cmds|, i requires 0 <= i < |cmds| => HyprctlClient.Rewrite(cmds[i]))
  }

  ghost predicate NoLeadingSpace(s: string) {
    s != [] ==> s[0] !in {' ', '\t', '\n', 12 as char, '\r'}
  }

  lemma {:induction false} SkipThrough(c: string, rest: string)
    requires NoLeadingSpace(rest)
    ensures HyprctlClient.SkipSpaces(c + rest) == HyprctlClient.SkipSpaces(c) + rest
  {
    if c == [] {
      assert c + rest == rest;
    } else {
      assert (c + rest)[1..] == c[1..] + rest;
      SkipThrough(c[1..], rest);
    }
  }

  // The rewrite goes through a text piece by piece.
  lemma {:induction false} RewriteThrough(c: string, rest: string)
    requires NoLeadingSpace(rest)
    ensures HyprctlClient.Rewrite(c + rest) == HyprctlClient.Rewrite(c) + HyprctlClient.Rewrite(rest)
    decreases |c|
  {
    if c == [] {
      assert c + rest == rest;
    } else {
      assert (c + rest)[1..] == c[1..] + rest;
      if c[0] == ';' {
        SkipThrough(c[1..], rest);
        RewriteThrough(HyprctlClient.SkipSpaces(c[1..]), rest);
        Regroup(";j/", HyprctlClient.Rewrite(HyprctlClient.SkipSpaces(c[1..])), HyprctlClient.Rewrite(rest));
      } else {
        RewriteThrough(c[1..], rest);
        Regroup([c[0]], HyprctlClient.Rewrite(c[1..]), HyprctlClient.Rewrite(rest));
      }
    }
  }

  lemma {:induction false} SkipsGap(gap: string, rest: string)
    requires ReSpaces(gap) && NoLeadingSpace(rest)
    ensures HyprctlClient.SkipSpaces(gap + rest) == rest
  {
    if gap == [] {
      assert gap + rest == rest;
    } else {
      assert (gap + rest)[1..] == gap[1..] + rest;
      assert gap[0] in gap && forall c :: c in gap[1..] ==> c in gap;
      SkipsGap(gap[1..], rest);
    }
  }

  lemma {:induction false} RewriteSeparator(gap: string, rest: string)
    requires ReSpaces(gap) && NoLeadingSpace(rest)
    ensures HyprctlClient.Rewrite(";" + gap + rest) == ";j/" + HyprctlClient.Rewrite(rest)
  {
    SkipsGap(gap, rest);
    assert (";" + gap + rest)[1..] == gap + rest;
  }

  // A vertical tab is none of them, and stays.
  lemma {:induction false} VerticalTabStays(gap: string, rest: string)
    requires ReSpaces(gap)
    ensures HyprctlClient.Rewrite(";" + gap + ([11 as char] + rest)) ==
            ";j/" + ([11 as char] + HyprctlClient.Rewrite(rest))
  {
    RewriteSeparator(gap, [11 as char] + rest);
    assert ([11 as char] + rest)[1..] == rest;
  }

  // No leading space where the rewrite would eat it: there it belongs to the gap.
  ghost predicate Typeable(cmds: seq<string>) {
    forall i :: 1 <= i < |cmds| ==> NoLeadingSpace(cmds[i])
  }

  // The rewritten text is the rewritten commands, flagged and joined by a bare ';'.
  lemma {:induction false} RewriteTyped(cmds: seq<string>, gaps: seq<string>)
    requires |cmds| > 0 && |gaps| == |cmds| - 1 && Typeable(cmds)
    requires forall g :: g in gaps ==> ReSpaces(g)
    ensures "j/" + HyprctlClient.Rewrite(Typed(cmds, gaps)) == Join(Flagged(RewrittenAll(cmds)))
  {
    if |cmds| > 1 {
      var c, rest := cmds[0], Typed(cmds[1..], gaps[1..]);
      RewriteThrough(c, ";" + gaps[0] + rest);
      assert cmds[1..][0] == cmds[1] && NoLeadingSpace(cmds[1]);
      RewriteSeparator(gaps[0], rest);
      RewriteTyped(cmds[1..], gaps[1..]);
      assert RewrittenAll(cmds)[1..] == RewrittenAll(cmds[1..]);
      FlaggedTail(RewrittenAll(cmds));
      Reassociate(HyprctlClient.Rewrite(c), HyprctlClient.Rewrite(rest));
    }
  }

  lemma {:induction false} FlaggedTail(cmds: seq<string>)
    requires |cmds| > 1
    ensures Flagged(cmds)[0] == "j/" + cmds[0] && Flagged(cmds)[1..] == Flagged(cmds[1..])
  {}

  lemma {:induction false} Reassociate(c: string, t: string)
    ensures "j/" + (c + (";j/" + t)) == "j/" + c + ";" + ("j/" + t)
  {}

  // ---------- What the server makes of it ----------

  lemma {:induction false} TrimRightKeeps(a: string, c: string)
    requires a != [] && !IsSpace(a[|a| - 1])
    ensures TrimRight(a + c) == a + TrimRight(c)
    decreases |c|
  {
    if c == [] {
      assert a + c == a;
    } else if IsSpace(c[|c| - 1]) {
      assert (a + c)[..|a + c| - 1] == a + c[..|c| - 1];
      TrimRightKeeps(a, c[..|c| - 1]);
    }
  }

  lemma {:induction false} TrimFlagged(c: string)
    ensures Trim("j/" + c) == "j/" + TrimRight(c)
  {
    TrimRightKeeps("j/", c);
  }

  // IsCommand, from the front.
  predicate Closes(s: string, depth: int) {
    if s == [] then depth == 0 else !(s[0] == ';' && depth == 0) && Closes(s[1..], Nested(depth, s[0]))
  }

  lemma {:induction false} ClosesFrom(s: string, i: nat)
    requires i <= |s|
    ensures Closes(s[i..], DepthAt(s, i)) <==>
            DepthAt(s, |s|) == 0 && forall k :: i <= k < |s| && s[k] == ';' ==> DepthAt(s, k) != 0
    decreases |s| - i
  {
    if i < |s| {
      assert s[i..][1..] == s[i + 1..];
      ClosesFrom(s, i + 1);
    }
  }

  lemma {:induction false} CommandCloses(s: string)
    ensures IsCommand(s) <==> Closes(s, 0)
  {
    ClosesFrom(s, 0);
    assert s[0..] == s;
  }

  lemma {:induction false} SkipKeepsClosing(s: string, depth: int)
    ensures Closes(HyprctlClient.SkipSpaces(s), depth) <==> Closes(s, depth)
  {
    if s != [] && HyprctlClient.ReSpace(s[0]) {
      SkipKeepsClosing(s[1..], depth);
    }
  }

  lemma {:induction false} FlagKeepsClosing(s: string, depth: int)
    ensures Closes("j/" + s, depth) <==> Closes(s, depth)
  {
    assert ("j/" + s)[1..] == "/" + s;
    assert ("/" + s)[1..] == s;
  }

  // The rewrite neither makes nor breaks a command.
  lemma {:induction false} RewriteKeepsClosing(s: string, depth: int)
    ensures Closes(HyprctlClient.Rewrite(s), depth) <==> Closes(s, depth)
    decreases |s|
  {
    if s != [] {
      var r := HyprctlClient.Rewrite(s);
      if s[0] == ';' {
        var rest := HyprctlClient.SkipSpaces(s[1..]);
        assert r[1..] == "j/" + HyprctlClient.Rewrite(rest);
        FlagKeepsClosing(HyprctlClient.Rewrite(rest), depth);
        RewriteKeepsClosing(rest, depth);
        SkipKeepsClosing(s[1..], depth);
      } else {
        assert r[1..] == HyprctlClient.Rewrite(s[1..]);
        RewriteKeepsClosing(s[1..], Nested(depth, s[0]));
      }
    }
  }

  lemma {:induction false} RewrittenIsCommand(c: string)
    ensures IsCommand(HyprctlClient.Rewrite(c)) <==> IsCommand(c)
  {
    CommandCloses(c);
    CommandCloses(HyprctlClient.Rewrite(c));
    RewriteKeepsClosing(c, 0);
  }

  lemma {:induction false} FlaggedIsCommand(c: string)
    ensures IsCommand("j/" + c) <==> IsCommand(c)
  {
    CommandCloses(c);
    CommandCloses("j/" + c);
    FlagKeepsClosing(c, 0);
  }

  lemma {:induction false} HeadEndAfter(flags: string, stop: char, body: string)
    requires '/' !in flags && ' ' !in flags && (stop == '/' || stop == ' ')
    ensures HeadEnd(flags + [stop] + body) == |flags|
  {
    if flags != [] {
      assert (flags + [stop] + body)[1..] == flags[1..] + [stop] + body;
      HeadEndAfter(flags[1..], stop, body);
    }
  }

  // Flags, slash, body: the flag letters are read and the body is left alone.
  lemma {:induction false} FlagsSlashBody(flags: string, body: string)
    requires '/' !in flags && ' ' !in flags && !(BATCH <= flags + "/" + body)
    ensures StripFlags(flags + "/" + body) ==
            Request(if 'j' in flags then FormatJson else FormatNormal, 'r' in flags,
                    Params('a' in flags, 'c' in flags), body)
  {
    var s := flags + "/" + body;
    HeadEndAfter(flags, '/', body);
    assert s == flags + ['/'] + body;
    assert s[|flags|] == '/';
    assert s[..|flags|] == flags && s[|flags| + 1..] == body;
  }

  // A slash after a space is kept in the body, but the letters of the first word have
  // already been read as flags by then: "dispatch exec /bin/x" asks for 'a' and 'c'.
  lemma {:induction false} FirstWordIsReadAsFlags(word: string, rest: string)
    requires '/' !in word && ' ' !in word && '/' in rest && !(BATCH <= word + [' '] + rest)
    ensures StripFlags(word + [' '] + rest) == WithFlags(word, word + [' '] + rest)
  {
    var s := word + [' '] + rest;
    HeadEndAfter(word, ' ', rest);
    assert s[|word|] == ' ' && s[..|word|] == word;
  }

  // So a request "word rest" is taken as typed exactly under this condition.
  lemma {:induction false} TakenAsTypedExact(word: string, rest: string)
    requires '/' !in word && ' ' !in word && !(BATCH <= word + [' '] + rest)
    ensures StripFlags(word + [' '] + rest) == WithFlags([], word + [' '] + rest) <==>
            '/' !in rest || ('j' !in word && 'r' !in word && 'a' !in word && 'c' !in word)
  {
    if '/' in rest {
      FirstWordIsReadAsFlags(word, rest);
    }
  }

  // "keyword" holds an 'r', so setting any path asks for a reload as well.
  lemma {:induction false} KeywordReloads(word: string, rest: string)
    requires word == "keyword" && '/' in rest
    ensures StripFlags(word + [' '] + rest) ==
            Request(FormatNormal, true, Params(false, false), word + [' '] + rest)
  {
    assert word[0] != BATCH[0] && word[5] == 'r';
    assert forall i :: 0 <= i < |word| ==> word[i] != 'j' && word[i] != 'a' && word[i] != 'c' && word[i] != ' ';
    FirstWordIsReadAsFlags(word, rest);
  }

  lemma {:induction false} ClientSends(word: string, cmds: seq<string>, gaps: seq<string>)
    requires ' ' !in word
    requires |cmds| > 0 && |gaps| == |cmds| - 1 && Typeable(cmds)
    requires forall g :: g in gaps ==> ReSpaces(g)
    ensures HyprctlClient.BatchText(word + " " + Typed(cmds, gaps), true) == BATCH + Join(Flagged(RewrittenAll(cmds)))
  {
    var typed := Typed(cmds, gaps);
    FirstOfPrefix(word, ' ', typed);
    assert word + " " + typed == word + [' '] + typed;
    assert (word + " " + typed)[|word| + 1..] == typed;
    RewriteTyped(cmds, gaps);
  }

  lemma {:induction false} ServerReads(cmds: seq<string>)
    requires forall c :: c in cmds ==> IsCommand(c)
    ensures Requests(Join(Flagged(cmds))) == TrimmedAll(Flagged(cmds))
  {
    forall s | s in Flagged(cmds)
      ensures s != [] && IsCommand(s)
    {
      var i :| 0 <= i < |cmds| && s == "j/" + cmds[i];
      FlaggedIsCommand(cmds[i]);
    }
    BatchSplitsBack(Flagged(cmds));
  }

  lemma {:induction false} JsonRequest(body: string)
    ensures StripFlags("j/" + body) == Request(FormatJson, false, Params(false, false), body)
  {
    var s := "j/" + body;
    assert BATCH[0] != s[0];
    assert s == "j" + "/" + body;
    FlagsSlashBody("j", body);
  }

  lemma {:induction false} FlaggedIsRead(c: string)
    ensures StripFlags(Trim("j/" + c)) == Request(FormatJson, false, Params(false, false), TrimRight(c))
  {
    TrimFlagged(c);
    JsonRequest(TrimRight(c));
  }

  // The first ';' stays where it was.
  lemma {:induction false} RewriteKeepsFirst(s: string)
    ensures FirstOf(HyprctlClient.Rewrite(s), ';') == FirstOf(s, ';')
  {
    if s != [] && s[0] != ';' {
      var r := HyprctlClient.Rewrite(s);
      assert r[1..] == HyprctlClient.Rewrite(s[1..]);
      RewriteKeepsFirst(s[1..]);
    }
  }

  lemma {:induction false} FirstOfAfterFlag(b: string)
    ensures FirstOf("j/" + b, ';') == 2 + FirstOf(b, ';')
  {
    assert ("j/" + b)[1..] == "/" + b;
    assert ("/" + b)[1..] == b;
  }

  // Trimming keeps the first ';' where it was.
  lemma {:induction false} TrimKeepsFirst(s: string)
    requires ';' in s
    ensures FirstOf(TrimRight(s), ';') == FirstOf(s, ';') && ';' in TrimRight(s)
  {
    var f := FirstOf(s, ';');
    var a, b := s[..f], s[f + 1..];
    assert s == a + [';'] + b;
    TrimRightKeeps(a + [';'], b);
    FirstOfPrefix(a, ';', TrimRight(b));
  }

  lemma {:induction false} RewriteOfPlain(c: string)
    requires ';' !in c
    ensures HyprctlClient.Rewrite(c) == c
  {
    if c != [] {
      RewriteOfPlain(c[1..]);
      assert [c[0]] + c[1..] == c;
    }
  }

  lemma {:induction false} TrimRightStarts(s: string)
    ensures TrimRight(s) != [] ==> s != [] && TrimRight(s)[0] == s[0]
  {
    if s != [] && IsSpace(s[|s| - 1]) {
      TrimRightStarts(s[..|s| - 1]);
    }
  }

  lemma {:induction false} RewriteHasSemicolon(s: string)
    ensures ';' in HyprctlClient.Rewrite(s) <==> ';' in s
  {
    if s != [] && s[0] != ';' {
      assert HyprctlClient.Rewrite(s)[1..] == HyprctlClient.Rewrite(s[1..]);
      RewriteHasSemicolon(s[1..]);
      HasHeadOrTail(s);
      HasHeadOrTail(HyprctlClient.Rewrite(s));
    } else if s != [] {
      assert HyprctlClient.Rewrite(s)[0] == ';';
    }
  }

  lemma {:induction false} HasHeadOrTail(s: string)
    requires s != []
    ensures ';' in s <==> s[0] == ';' || ';' in s[1..]
  {
    assert s == [s[0]] + s[1..];
  }

  // What stands after a ';' is never the same text again.
  lemma {:induction false} RewriteInserts(x: string)
    ensures "j/" + TrimRight(HyprctlClient.Rewrite(HyprctlClient.SkipSpaces(x))) != TrimRight(x)
  {
    TrimRightStarts(x);
    if x != [] && !HyprctlClient.ReSpace(x[0]) {
      if ';' in x {
        var r := HyprctlClient.Rewrite(x);
        RewriteKeepsFirst(x);
        RewriteHasSemicolon(x);
        TrimKeepsFirst(r);
        TrimKeepsFirst(x);
        FirstOfAfterFlag(TrimRight(r));
      } else {
        RewriteOfPlain(x);
      }
    }
  }

  // What follows the first ';' gets a flag.
  lemma {:induction false} RewriteAt(a: string, x: string)
    requires ';' !in a
    ensures HyprctlClient.Rewrite(a + [';'] + x) ==
            a + [';'] + ("j/" + HyprctlClient.Rewrite(HyprctlClient.SkipSpaces(x)))
  {
    var rest := "j/" + HyprctlClient.Rewrite(HyprctlClient.SkipSpaces(x));
    Regroup(a, [';'], x);
    RewriteThrough(a, [';'] + x);
    RewriteOfPlain(a);
    assert ([';'] + x)[1..] == x;
    assert HyprctlClient.Rewrite([';'] + x) == [';'] + rest;
    Regroup(a, [';'], rest);
  }

  lemma {:induction false} SamePrefix(p: string, a: string, b: string)
    ensures p + a == p + b ==> a == b
  {
    assert (p + a)[|p|..] == a && (p + b)[|p|..] == b;
  }

  lemma {:induction false} RewriteChanges(a: string, x: string)
    requires ';' !in a
    ensures TrimRight(HyprctlClient.Rewrite(a + [';'] + x)) != TrimRight(a + [';'] + x)
  {
    var rest := HyprctlClient.Rewrite(HyprctlClient.SkipSpaces(x));
    RewriteAt(a, x);
    TrimRightKeeps(a + [';'], x);
    TrimRightKeeps(a + [';'], "j/" + rest);
    TrimRightKeeps("j/", rest);
    RewriteInserts(x);
    SamePrefix(a + [';'], "j/" + TrimRight(rest), TrimRight(x));
  }

  // The rewrite leaves a command alone, up to trailing whitespace, exactly when it has
  // no ';': brackets do not protect from it.
  lemma {:induction false} RewriteUnchanged(c: string)
    ensures TrimRight(HyprctlClient.Rewrite(c)) == TrimRight(c) <==> ';' !in c
  {
    if ';' in c {
      var f := FirstOf(c, ';');
      assert c == c[..f] + [';'] + c[f + 1..];
      RewriteChanges(c[..f], c[f + 1..]);
    } else {
      RewriteOfPlain(c);
    }
  }

  // A request for JSON with this body.
  function JsonOf(body: string): Request {
    Request(FormatJson, false, Params(false, false), TrimRight(body))
  }

  // What the server reads from the text that the client sends.
  lemma {:induction false} ReadFromClient(word: string, cmds: seq<string>, gaps: seq<string>)
    requires ' ' !in word
    requires |cmds| > 0 && |gaps| == |cmds| - 1 && Typeable(cmds)
    requires forall c :: c in cmds ==> IsCommand(c)
    requires forall g :: g in gaps ==> ReSpaces(g)
    ensures var rq := HyprctlClient.BatchText(word + " " + Typed(cmds, gaps), true);
            BATCH <= rq && Requests(rq[|BATCH|..]) == TrimmedAll(Flagged(RewrittenAll(cmds)))
  {
    var sent := Join(Flagged(RewrittenAll(cmds)));
    ClientSends(word, cmds, gaps);
    assert (BATCH + sent)[|BATCH|..] == sent;
    AllRewritten(cmds);
    ServerReads(RewrittenAll(cmds));
  }

  lemma {:induction false} ReadOf(cmds: seq<string>, i: nat)
    requires i < |cmds|
    ensures var r := StripFlags(TrimmedAll(Flagged(RewrittenAll(cmds)))[i]);
            && r == JsonOf(HyprctlClient.Rewrite(cmds[i]))
            && (r == JsonOf(cmds[i]) <==> ';' !in cmds[i])
  {
    FlaggedIsRead(RewrittenAll(cmds)[i]);
    RewriteUnchanged(cmds[i]);
  }

  lemma {:induction false} GapsAreSpaces(gaps: seq<string>)
    requires forall g, c :: g in gaps && c in g ==> c in {' ', '\t', '\n', 12 as char, '\r'}
    ensures forall g :: g in gaps ==> ReSpaces(g)
  {}

  // JSON batches: each command as typed becomes one request for JSON, in order. Its body
  // is the command's, up to trailing whitespace, exactly when the command has no ';'.
  lemma {:induction false} ClientServerAgree(word: string, cmds: seq<string>, gaps: seq<string>)
    requires ' ' !in word && |cmds| > 0 && |gaps| == |cmds| - 1
    requires forall g, c :: g in gaps && c in g ==> c in {' ', '\t', '\n', 12 as char, '\r'}
    requires forall i :: 1 <= i < |cmds| && cmds[i] != [] ==> cmds[i][0] !in {' ', '\t', '\n', 12 as char, '\r'}
    requires forall c :: c in cmds ==> IsCommand(c)
    ensures var rq := HyprctlClient.BatchText(word + " " + Typed(cmds, gaps), true);
            && BATCH <= rq
            && var requests := Requests(rq[|BATCH|..]);
               && |requests| == |cmds|
               && forall i :: 0 <= i < |cmds| ==>
                    && StripFlags(requests[i]) == JsonOf(HyprctlClient.Rewrite(cmds[i]))
                    && (StripFlags(requests[i]) == JsonOf(cmds[i]) <==> ';' !in cmds[i])
  {
    GapsAreSpaces(gaps);
    ReadFromClient(word, cmds, gaps);
    forall i | 0 <= i < |cmds|
      ensures StripFlags(TrimmedAll(Flagged(RewrittenAll(cmds)))[i]) == JsonOf(HyprctlClient.Rewrite(cmds[i]))
      ensures StripFlags(TrimmedAll(Flagged(RewrittenAll(cmds)))[i]) == JsonOf(cmds[i]) <==> ';' !in cmds[i]
    {
      ReadOf(cmds, i);
    }
  }

  lemma {:induction false} AllRewritten(cmds: seq<string>)
    requires forall c :: c in cmds ==> IsCommand(c)
    ensures forall c :: c in RewrittenAll(cmds) ==> IsCommand(c)
    ensures (forall c :: c in cmds ==> ';' !in c) ==> RewrittenAll(cmds) == cmds
  {
    forall i | 0 <= i < |cmds|
      ensures IsCommand(RewrittenAll(cmds)[i])
      ensures ';' !in cmds[i] ==> RewrittenAll(cmds)[i] == cmds[i]
    {
      assert cmds[i] in cmds;
      RewrittenIsCommand(cmds[i]);
      if ';' !in cmds[i] {
        RewriteOfPlain(cmds[i]);
      }
    }
  }

  // A command whose ';' stands in brackets: without -j the server reads it as typed, with
  // -j it reads another body.
  lemma {:induction false} BracketsDoNotProtect(word: string, c: string)
    requires ' ' !in word && c == "[a;b]"
    ensures HyprctlClient.BatchText(word + " " + c, false) == "[[BATCH]]" + c && Requests(c) == [c]
    ensures var rq := HyprctlClient.BatchText(word + " " + c, true);
            && "[[BATCH]]" <= rq && |Requests(rq[9..])| == 1
            && StripFlags(Requests(rq[9..])[0]).body == "[a;j/b]"
  {
    BracketsAreCommand(c);
    PlainBatch(word, c);
    ClientServerAgree(word, [c], []);
  }

  // Without -j a single command goes to the server as it is.
  lemma {:induction false} PlainBatch(word: string, c: string)
    requires ' ' !in word && c != [] && IsCommand(c)
    ensures HyprctlClient.BatchText(word + " " + c, false) == BATCH + c
    ensures (BATCH + c)[|BATCH|..] == c && Requests(c) == [Trim(c)]
  {
    FirstOfPrefix(word, ' ', c);
    assert word + " " + c == word + [' '] + c;
    assert (word + " " + c)[|word| + 1..] == c;
    BatchSplitsBack([c]);
  }

  lemma {:induction false} BracketsAreCommand(c: string)
    requires c == "[a;b]"
    ensures IsCommand(c) && Trim(c) == c && TrimRight(HyprctlClient.Rewrite(c)) == "[a;j/b]"
  {
    assert c[1..] == "a;b]" && c[1..][1..] == ";b]" && c[1..][1..][1..] == "b]";
    assert Closes("b]", 1) && Closes(";b]", 1) && Closes("a;b]", 1) && Closes(c, 0);
    CommandCloses(c);
    RewriteAt("[a", "b]");
    RewriteOfPlain("b]");
    assert c == "[a" + [';'] + "b]" && "[a" + [';'] + ("j/" + "b]") == "[a;j/b]";
  }
}
