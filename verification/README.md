# Verified model of Hyprland's selectors, IPC protocol and event cores

This project models, in Dafny, the parts of the compositor and its tools whose behaviour is
decided by counting, parsing and state rather than by I/O:

* **Relative workspace selectors** (`r+3`, `r-2`, `r~4`, `m-1`, `e+5`, `empty`). The order they
  count in is defined in `WorkspaceOrder.dfy` without any loop; `WorkspaceResolver.dfy` holds the
  loops of the source, each proved against a closed form; `WorkspaceResolverProofs.dfy` relates
  the predict-count-walk form of `r+N` and `r-N` to the enumeration of `r~N`, with the exact
  conditions under which they agree.
  `ResolveProofs.dfy` says what the answers are in terms of the workspaces and rules given.
* **Workspace selectors** (`r[1-5] w[tv2]`): the scanner with its index jump, the window and group
  counters, and the reading of a selector as a conjunction (`Selector.dfy`, `SelectorProofs.dfy`).
* **The hyprctl text protocol**: flags, dispatch, batch splitting (`HyprCtl.dfy`), the client's
  batch rewrite (`HyprctlClient.dfy`), and that both ends agree (`BatchProofs.dfy`,
  `DispatchProofs.dfy`); JSON escaping against the string grammar of section 7 of RFC 8259
  (`JsonEscape.dfy`); the instance signature and lock file, written and read back
  (`Instance.dfy`); the partial-write loops of both ends (`SocketWrite.dfy`).
* **Stateful cores**: damage batching in the animation tick (`DamageBatch.dfy`,
  `DamageBatchProofs.dfy`), pressed keys and modifiers of a keyboard over whole event runs
  (`Keyboard.dfy`, `KeyboardProofs.dfy`), and the flat class table of the Lua stub generator
  (`ConfigTree.dfy`, `ConfigTreeProofs.dfy`).

Every lemma switches automatic induction off, so inductive steps are written out.
`Common.dfy` and `Text.dfy` hold shared vocabulary: options, whitespace, digits, decimal numbers.
Loops and objects of the source are methods and classes; each is proved equal to a function of its
inputs or old state, and the properties are lemmas about that function.

## What the code does, where its own comments or its users might expect otherwise

* `r-N` from an allowed positive workspace finds the entry N places earlier exactly under the
  condition of `BackwardExact`: with too few allowed ids below, the named workspaces are entered
  correctly only if id 1 is forbidden and N is below the active id, or N equals the active id and
  either id 0 counts as forbidden or nothing from 1 up to the active id is. `StepsBackTooFew` is a
  workspace list where it fails: from workspace 1 above two named ones, `r-2` stops one too early.
* `r-N` from a workspace that a rule binds to another monitor counts the active id as one more
  miss. With more than N allowed ids below it goes one allowed id too far (`BackwardOneTooFar`);
  with exactly N it ends on id 1 if that is allowed, which is then right, and otherwise falls back
  with one step left over. `BackwardExactWithin` is the exact condition with at least N allowed ids
  below, `BackwardExactFromForbidden` the one for every N that has an entry, and
  `ForbiddenStartMisses` an input that fails for N = 1 and is right for N = 2.
* `r-N` from a named workspace is never N steps back: it is always the last named workspace
  (`BackwardAmongNamed`), or a wrapped-around negative number (`BackwardOffNamed`); with a single
  named workspace `r-1` yields `WORKSPACE_INVALID` (`BackwardFromOnlyNamed`).
* `r+N` from a named workspace keeps a stale count across the seam (`ForwardAcrossSeam`); in
  `SeamOvershoots` a special workspace makes `r+1` pass over the free workspace 1.
* The comment "everything less than beginID is invalid" (src/helpers/MiscFunctions.cpp:356) does
  not hold; `TurnAroundExact` says exactly when the turn-around reaches the smallest allowed id, and
  `TurnsAroundTooHigh` is an input where it does not.
* Letters of a request's first word are read as flags when a slash follows later
  (`FirstWordIsReadAsFlags`), although the comment at src/debug/HyprCtl.cpp:2080 wants to protect
  such requests: `keyword` with any path asks for a reload as well (`KeywordReloads`), and
  `TakenAsTypedExact` says which requests are taken as typed.
* Brackets protect a `;` from the server's splitting but not from the client's JSON rewrite:
  `ClientServerAgree` says that exactly the commands without a `;` arrive as typed, and
  `BracketsDoNotProtect` that `[a;b]` does not.
* A command with nothing to say has run all the same: its effect stays although the next match
  answers, or although the reply is "unknown request" (`DispatchExact`).
* `successWrite` reports failure after the whole reply was delivered exactly when the write after
  the first run of more than 20 refusals takes all that is left (`FailureAfterDeliveryExact`;
  `FailureAfterDelivery` is such a run).
* The server treats an interrupted write as an error (`ErrorStops`); the client waits it out
  (`InterruptionsAreWaitedOut`).
* The list of selectors at src/desktop/Workspace.cpp:155-156 gives `f[2]` a meaning of its own, but
  it matches every workspace (`FullscreenPartitions`).
* `empty` with `n` can find a negative id: from a named workspace it starts at that workspace's id
  (`EmptyStopsBelowZero`); `EmptyIsPositive` says when it does not.
* `m-1` and `e-1` from a workspace that is not stepped through, a special one say, skip the last
  workspace (`BackFromElsewhere`).
* The client's `\s` leaves out the vertical tab, so one after a `;` stays in the command
  (`VerticalTabStays`), although the server counts it as whitespace.
* The flat class table of the stub generator names classes in Pascal case, so two routes through
  one class name share its members: keys `a_b.x` and `a_B.y` admit `a_b.y` (`StubWalksMix`).
  `StubTreeIsFaithful` is the exact condition.
* A keyboard starts from zero modifiers whatever xkb holds; `FreshSyncExact` says when a run has
  brought the two together.

## Model

| member | source | states |
|---|---|---|
| WorkspaceOrder.ForbiddenFits | src/helpers/MiscFunctions.cpp:296-299 | an interval never holds more forbidden ids than it has places |
| WorkspaceOrder.NextExists | src/helpers/MiscFunctions.cpp:275-280 | above every id there is an allowed one, since the forbidden set is finite: the reason the unbounded walks end |
| WorkspaceOrder.NthAboveIsNth | src/helpers/MiscFunctions.cpp:269-281 | counting up n allowed ids reaches an allowed id with exactly n allowed ids on the way |
| WorkspaceOrder.NthAboveUnique | src/helpers/MiscFunctions.cpp:269-281 | that count determines the id |
| WorkspaceOrder.NthBelowIsNth | src/helpers/MiscFunctions.cpp:336-344 | counting down finds the n-th allowed positive id below, or none exactly when there are fewer than n |
| WorkspaceOrder.DownUndoesUp | src/helpers/MiscFunctions.cpp:336-371 | from an allowed id, n down after n up comes back |
| WorkspaceOrder.UpUndoesDown | src/helpers/MiscFunctions.cpp:336-371 | n up after n down comes back, when there were n allowed ids below |
| WorkspaceOrder.EntryAtRank | src/helpers/MiscFunctions.cpp:265-282 | an allowed positive id stands in the combined order at the number of named workspaces plus allowed ids up to it |
| WorkspaceOrder.UpAdvancesRank | src/helpers/MiscFunctions.cpp:265-282 | going up n allowed ids moves n entries forward in the combined order |
| WorkspaceOrder.DownLowersRank | src/helpers/MiscFunctions.cpp:265-282 | going down n allowed ids moves n entries back, while there are that many |
| WorkspaceResolver.CollectForbidden | src/helpers/MiscFunctions.cpp:233-253 | collects exactly the ids of special or foreign workspaces and of enabled rules bound to another monitor |
| WorkspaceResolver.CollectNamed | src/helpers/MiscFunctions.cpp:255-263 | lists exactly the monitor's named workspaces, strictly ascending |
| WorkspaceResolver.CollectCycled | src/helpers/MiscFunctions.cpp:400-408 | lists exactly the non-special workspaces of the monitor, or of all monitors, strictly ascending |
| WorkspaceResolver.CountForbidden | src/helpers/MiscFunctions.cpp:293-299 | the upper_bound scan counts the forbidden ids of the interval |
| WorkspaceResolver.WalkUp | src/helpers/MiscFunctions.cpp:362-371 | walking up passes exactly that many allowed ids, or stops at the INT32_MAX cap |
| WorkspaceResolver.WalkDown | src/helpers/MiscFunctions.cpp:336-344 | walking down stops at the n-th allowed id below, or at 1, and reports how many were not passed |
| WorkspaceResolver.Enumerate | src/helpers/MiscFunctions.cpp:273-281 | the unbounded loop ends and reaches the allowed id it counts to |
| WorkspaceResolver.AbsoluteId | src/helpers/MiscFunctions.cpp:265-282 | r~N is the N-th entry of named then allowed ids; 0 for N below 1 |
| WorkspaceResolver.FindItem | src/helpers/MiscFunctions.cpp:304-311 | index of the active workspace among the named ones, or the largest size_t |
| WorkspaceResolver.StartFromNamed | src/helpers/MiscFunctions.cpp:301-331 | from a named workspace: the named one it lands on, or the start above the seam with both counts added up |
| WorkspaceResolver.Walk | src/helpers/MiscFunctions.cpp:333-373 | the walk with its fallback: n-th allowed id, named workspace, or turn-around |
| WorkspaceResolver.SignedId | src/helpers/MiscFunctions.cpp:283-373 | r+N and r-N with size_t wrap-around, seam, fallback and cap, as closed forms |
| WorkspaceResolver.ResolveOnMonitor | src/helpers/MiscFunctions.cpp:217-374 | the whole r branch from workspaces and rules to the id, whose meaning in terms of their fields ResolveProofs states |
| WorkspaceResolver.CycleId | src/helpers/MiscFunctions.cpp:398-446 | m and e: the index is in bounds and is addition modulo the number of workspaces, or the clamp for ~ |
| WorkspaceResolver.ResolveCycle | src/helpers/MiscFunctions.cpp:380-446 | the whole m or e branch from the workspaces to the id |
| WorkspaceResolver.WrapIsModulo | src/helpers/MiscFunctions.cpp:424-443 | reducing towards zero and then wrapping once is reduction modulo the count |
| WorkspaceResolver.EmptyId | src/helpers/MiscFunctions.cpp:169-177 | the least id above the start that is neither bound elsewhere nor occupied |
| WorkspaceResolver.ResolveEmpty | src/helpers/MiscFunctions.cpp:147-177 | the whole empty branch, with m and n |
| WorkspaceResolverProofs.PredictionIsCorrected | src/helpers/MiscFunctions.cpp:285-299 | guess plus as many further allowed ids as were forbidden on the way equals counting one by one |
| WorkspaceResolverProofs.ForwardExact | src/helpers/MiscFunctions.cpp:284-371 | r+N is the N-th allowed id above iff it is below INT32_MAX or nothing was miscounted |
| WorkspaceResolverProofs.ForwardRefinesAbsolute | src/helpers/MiscFunctions.cpp:265-371 | r+N equals r~(rank of active + N) |
| WorkspaceResolverProofs.WalkFindsNthBelow | src/helpers/MiscFunctions.cpp:284-344 | with enough allowed ids below, the downward walk from the guess stops at the N-th of them |
| WorkspaceResolverProofs.BackwardCounts | src/helpers/MiscFunctions.cpp:284-345 | r-N is the N-th allowed id below and never falls back |
| WorkspaceResolverProofs.BackwardOneTooFar | src/helpers/MiscFunctions.cpp:294-299 | from a forbidden active workspace with more than N allowed ids below, r-N is the (N+1)-th of them |
| WorkspaceResolverProofs.BackwardExactWithin | src/helpers/MiscFunctions.cpp:284-345 | with at least N allowed ids below, r-N is right iff the active workspace is allowed, or there are exactly N and id 1 is allowed |
| WorkspaceResolverProofs.RunsOut | src/helpers/MiscFunctions.cpp:284-352 | when the allowed ids below run out, the walk ends on 1 if that is allowed, and otherwise falls back with the steps left over, counting a forbidden active id as one of them |
| WorkspaceResolverProofs.BackwardUndoesForward | src/helpers/MiscFunctions.cpp:284-371 | r-N after r+N returns to the start |
| WorkspaceResolverProofs.ForwardUndoesBackward | src/helpers/MiscFunctions.cpp:284-371 | r+N after an r-N that did not fall back returns to the start |
| WorkspaceResolverProofs.LandsOnAllowed | src/helpers/MiscFunctions.cpp:290-371 | from a positive id every r+N and r-N lands on a named workspace or on a positive allowed id, turn-around included |
| WorkspaceResolverProofs.TurnAround | src/helpers/MiscFunctions.cpp:345-371 | where r-N ends when the allowed ids below run out and nothing is named, from an allowed or a forbidden start |
| WorkspaceResolverProofs.TurnAroundExact | src/helpers/MiscFunctions.cpp:353-359 | that end is the smallest allowed id iff nothing allowed lies at or below the guess (or 1 is allowed, or the guess was clamped) |
| WorkspaceResolverProofs.FallBackFromPositiveGuess | src/helpers/MiscFunctions.cpp:345-352 | with a positive guess the right named workspace is entered iff id 1 is forbidden, else the result is 1 |
| WorkspaceResolverProofs.FallBackFromZero | src/helpers/MiscFunctions.cpp:290-352 | with the guess clamped to 0 the remaining steps are what is forbidden below the active id |
| WorkspaceResolverProofs.BackwardExact | src/helpers/MiscFunctions.cpp:284-352 | from an allowed workspace, r-N is the entry N places earlier iff a condition on N, ids 0 and 1 and the forbidden ids below holds |
| WorkspaceResolverProofs.BackwardExactFromForbidden | src/helpers/MiscFunctions.cpp:284-352 | the same from a forbidden workspace: right only by coincidences at id 1 or at the last named workspace |
| WorkspaceResolverProofs.BelowAtRank | src/helpers/MiscFunctions.cpp:265-282 | the n-th allowed id below, by its place in the combined order |
| WorkspaceResolverProofs.StepsBackTooFew | src/helpers/MiscFunctions.cpp:284-352 | a workspace list on which r-2 is not two entries back |
| WorkspaceResolverProofs.TurnsAroundTooHigh | src/helpers/MiscFunctions.cpp:353-359 | a workspace list on which the turn-around misses the smallest allowed id |
| WorkspaceResolverProofs.SeamOvershoots | src/helpers/MiscFunctions.cpp:315-325 | a workspace list on which r+1 from a named workspace is not the next entry |
| WorkspaceResolverProofs.ForbiddenStartMisses | src/helpers/MiscFunctions.cpp:294-299 | a workspace and a rule for which r-1 is wrong and r-2 is right |
| WorkspaceResolverProofs.ForwardAmongNamed | src/helpers/MiscFunctions.cpp:301-331 | while the named workspaces last, r+N steps through them |
| WorkspaceResolverProofs.ForwardFromUnlisted | src/helpers/MiscFunctions.cpp:301-331 | from a negative id that is not listed, r+N is the N-th named workspace |
| WorkspaceResolverProofs.ForwardAcrossSeam | src/helpers/MiscFunctions.cpp:315-325 | across the seam r+N agrees with r~ iff no forbidden id lies between the active id and the naive guess |
| WorkspaceResolverProofs.BackwardAmongNamed | src/helpers/MiscFunctions.cpp:301-352 | r-N from a named workspace is always the last named one, never N steps back |
| WorkspaceResolverProofs.BackwardOffNamed | src/helpers/MiscFunctions.cpp:305-325 | with fewer than N named workspaces before it, the wrapped index becomes a negative id |
| WorkspaceResolverProofs.BackwardFromOnlyNamed | src/helpers/MiscFunctions.cpp:305-325 | r-1 from the only named workspace is WORKSPACE_INVALID |
| WorkspaceResolverProofs.AbsoluteEnumerates | src/helpers/MiscFunctions.cpp:265-282 | r~ reaches exactly the named and the allowed positive ids |
| WorkspaceResolverProofs.AbsoluteAscends | src/helpers/MiscFunctions.cpp:265-282 | r~ lists them in strictly ascending order, so each once |
| WorkspaceResolverProofs.EmptyIsNear | src/helpers/MiscFunctions.cpp:169-177 | empty passes no more ids than are taken, so it succeeds unless those reach up to LONG_MAX |
| WorkspaceResolverProofs.EmptyIsPositive | src/helpers/MiscFunctions.cpp:169-177 | empty finds a positive id iff every id from its start up to 0 is taken, as long as the start plus the number of taken ids stays below LONG_MAX |
| WorkspaceResolverProofs.EmptyStopsBelowZero | src/helpers/MiscFunctions.cpp:169-177 | a workspace list on which empty with n, from a named workspace, finds a negative id |
| WorkspaceResolverProofs.CycleComposes | src/helpers/MiscFunctions.cpp:422-443 | m and e steps add up |
| WorkspaceResolverProofs.CycleInverse | src/helpers/MiscFunctions.cpp:422-443 | N steps back undo N steps forward |
| WorkspaceResolverProofs.CycleVisitsEachOnce | src/helpers/MiscFunctions.cpp:422-446 | as many consecutive steps as workspaces visit each exactly once |
| ResolveProofs.AbsoluteReaches | src/helpers/MiscFunctions.cpp:233-282 | r~ reaches exactly the normal negative ids of the monitor, and the positive ids that no special workspace, no workspace of another monitor and no enabled rule for another monitor takes |
| ResolveProofs.OtherRulesDoNotMatter | src/helpers/MiscFunctions.cpp:242-253 | rules that are disabled, resolve to no monitor or bind to this one never change an answer of r, for any jump and number |
| ResolveProofs.NeverElsewhere | src/helpers/MiscFunctions.cpp:233-373 | no r selector but r+0, from any start, answers with a positive id below the cap that is special, on another monitor, or bound to one |
| ResolveProofs.CycleStaysHere | src/helpers/MiscFunctions.cpp:400-446 | m and e answer only with ids of normal workspaces, m only with those of the monitor |
| ResolveProofs.CycleReachesAll | src/helpers/MiscFunctions.cpp:400-446 | each of those is the answer after some number of steps, in either direction |
| ResolveProofs.CycleStep | src/helpers/MiscFunctions.cpp:422-446 | one step forward is the next id above; past the last, or from a workspace not among them, the first |
| ResolveProofs.AbsoluteCycle | src/helpers/MiscFunctions.cpp:412-421 | m~N and e~N are the N-th of them in ascending order, the first below that and the last above |
| ResolveProofs.BackFromElsewhere | src/helpers/MiscFunctions.cpp:422-446 | from a workspace not among them, one step back is the last but one |
| ResolveProofs.EmptyExact | src/helpers/MiscFunctions.cpp:147-177 | empty finds the first id above its start that no workspace with windows has and (m) no rule binds away, or -1 if there is none below LONG_MAX |
| Selector.GetWindowCount | src/desktop/Workspace.cpp:429-452 | the loop counts the targets that pass the filters |
| Selector.GetGroups | src/desktop/Workspace.cpp:454-476 | the loop counts the groups that pass the filters |
| Selector.TiledPlusFloating | src/desktop/Workspace.cpp:443-444 | tiled plus floating is the total, under any other filters |
| Selector.ParseFlags | src/desktop/Workspace.cpp:261-287 | the flag loop reads what the character-by-character scan defines |
| Selector.MatchCount | src/desktop/Workspace.cpp:252-353 | the counted number of targets or groups is the single number, or lies in the range |
| Selector.MatchesStaticSelector | src/desktop/Workspace.cpp:120-397 | the matcher decides trim, number, name and special forms, and otherwise that all visited parts match |
| Selector.RunScanner | src/desktop/Workspace.cpp:135-392 | the index-jumping loop decides that every bracketed part it visits matches |
| SelectorProofs.PropsOfJoined | src/desktop/Workspace.cpp:135-160 | the scanner visits exactly the joined pieces, in order |
| SelectorProofs.SelectorIsConjunction | src/desktop/Workspace.cpp:120-393 | a joined selector matches iff every piece matches alone |
| SelectorProofs.BlankMatches | src/desktop/Workspace.cpp:121-124 | the empty selector matches everything |
| SelectorProofs.OrderIsIrrelevant | src/desktop/Workspace.cpp:135-392 | order, repetition and whitespace of pieces do not matter |
| SelectorProofs.WhitespaceIsIgnored | src/desktop/Workspace.cpp:121 | any of the six whitespace characters around any selector do not matter |
| SelectorProofs.NumberSelectorExact | src/desktop/Workspace.cpp:126-132 | a number, with whitespace around it, matches exactly the workspace whose id it resolves to, and none when that is -1 |
| SelectorProofs.NumberMatchesOneId | src/desktop/Workspace.cpp:126-132 | so a number matches at most one workspace id |
| SelectorProofs.NameSelectorExact | src/desktop/Workspace.cpp:134-135 | name: and a name matches exactly the workspaces of that name |
| SelectorProofs.SpecialNameExact | src/desktop/Workspace.cpp:136-137 | text starting with special matches exactly the workspaces of that whole name |
| SelectorProofs.UnclosedNeverMatches | src/desktop/Workspace.cpp:135-160 | a bracket selector that does not end in a closing bracket never matches, whatever its earlier parts are |
| SelectorProofs.UnknownLetterNeverMatches | src/desktop/Workspace.cpp:162-389 | a selector with one part of an unknown letter never matches |
| SelectorProofs.RangeOfExact | src/desktop/Workspace.cpp:171-195 | a range text is accepted iff it is two plain decimal numbers around one dash with 1 <= a <= b in 64 bits, and reads as those |
| SelectorProofs.RangeSelectorExact | src/desktop/Workspace.cpp:162-200 | r[a-b] printed in decimal matches exactly ids a to b, and nothing if a bound does not fit 64 bits |
| SelectorProofs.DecimalSample | src/desktop/Workspace.cpp:162-200 | r[7-12] matches the ids 7 to 12 |
| SelectorProofs.FlagsAreRead | src/desktop/Workspace.cpp:267-287 | flags in any order are read as a set and the digits are left |
| SelectorProofs.CountIsAsked | src/desktop/Workspace.cpp:429-476 | the number w[flags] compares counts the targets, or under g the groups, that have what each letter asks for |
| SelectorProofs.RepeatedFlagNeverMatches | src/desktop/Workspace.cpp:267-317 | a flag given twice, or both t and f, and the selector never matches |
| SelectorProofs.CountSelectorExact | src/desktop/Workspace.cpp:252-353 | w[flags a-b] matches iff the selected number of targets or groups is in a to b |
| SelectorProofs.SingleCountSelectorExact | src/desktop/Workspace.cpp:289-317 | w[flags n] matches iff that number is n |
| SelectorProofs.SpecialPartitions | src/desktop/Workspace.cpp:202-215 | through the whole matcher, s[..] texts read as nonzero and as zero divide the workspaces, and unreadable ones match all |
| SelectorProofs.MonitorsAgree | src/desktop/Workspace.cpp:217-230 | two m[..] parts match iff both name the one monitor the workspace is on |
| SelectorProofs.NameAffixesExact | src/desktop/Workspace.cpp:232-240 | n[s:..] n[e:..] match exactly the names that extend the prefix and the suffix |
| SelectorProofs.NamedPartitions | src/desktop/Workspace.cpp:243-249 | n[..] texts read as 1 and as 0 divide the workspaces at id -1337, and other numbers match nothing |
| SelectorProofs.FullscreenPartitions | src/desktop/Workspace.cpp:355-386 | with flag and mode in agreement exactly one of f[-1], f[0], f[1] matches; every other number matches all, unreadable text none |
| HyprCtl.ParseFlags | src/debug/HyprCtl.cpp:2072-2101 | the flag loop yields format, reload, params and body of the request |
| HyprCtl.CHyprCtl.GetReply | src/debug/HyprCtl.cpp:2066-2168 | reply, request parameters and compositor state after one request, batches included: handlers and the reload transform an arbitrary state |
| HyprCtl.CHyprCtl.DispatchBatch | src/debug/HyprCtl.cpp:1313-1337 | reply and compositor state after a batch: every dispatched segment served once, in order, each in the state the one before left, replies joined |
| HyprCtl.RequestsAreShort | src/debug/HyprCtl.cpp:1330 | every dispatched request is no longer than the batch text, so nested batches end |
| HyprCtl.DropLastDelimiter | src/debug/HyprCtl.cpp:1336 | cutting the last delimiter leaves the replies with the delimiter between them only |
| DispatchProofs.DispatchExact | src/debug/HyprCtl.cpp:2103-2167 | reply and state of every request in terms of the first exact command and the first prefix: who runs, in which state, who answers, and whether a reload follows |
| DispatchProofs.PlacesExist | src/debug/HyprCtl.cpp:2105-2124 | every request has exactly one first exact command or none, and one first prefix or none |
| DispatchProofs.BatchIsServed | src/debug/HyprCtl.cpp:2073-2128 | a batch request reads no flags of its own and is answered by its commands' replies |
| DispatchProofs.JsonBatchAnswered | hyprctl/src/main.cpp:339-349 | end to end: the text the client sends for a -j batch is answered by the JSON replies to the rewritten commands, each handled once, in order, in the state left before it; without a semicolon those are the commands as typed |
| BatchProofs.SplitUndoesJoin | src/debug/HyprCtl.cpp:1322-1334 | splitting on top-level ';' undoes joining iff every segment is a command |
| BatchProofs.SegmentsAreCommands | src/debug/HyprCtl.cpp:1322-1334 | every segment of any text has balanced brackets and no top-level separator |
| BatchProofs.BatchSplitsBack | src/debug/HyprCtl.cpp:1322-1334 | every nonempty command is dispatched once, in order, trimmed |
| BatchProofs.EmptyCommandsAreSkipped | src/debug/HyprCtl.cpp:1322-1334 | empty commands are left out and the others dispatched in order, trimmed |
| BatchProofs.BatchReply | src/debug/HyprCtl.cpp:1313-1337 | the batch reply is the commands' replies joined by three newlines, each served in the state its predecessors left |
| BatchProofs.JoinedFromFront | src/debug/HyprCtl.cpp:1313-1337 | three newlines stand between two replies and nowhere else |
| BatchProofs.SplitExact | src/debug/HyprCtl.cpp:1322-1334 | a text is read as one segment iff as many brackets close as open and no ';' stands where as many have closed as opened |
| BatchProofs.CommandIsBalanced | src/debug/HyprCtl.cpp:1322-1334 | commands are the texts so balanced |
| BatchProofs.FlagsSlashBody | src/debug/HyprCtl.cpp:2073-2101 | flags before a slash are read and the body is left alone |
| BatchProofs.FirstWordIsReadAsFlags | src/debug/HyprCtl.cpp:2080-2097 | with a slash after a space, the first word's letters are read as flags and nothing is stripped |
| BatchProofs.TakenAsTypedExact | src/debug/HyprCtl.cpp:2073-2101 | a request of a first word and the rest is taken as typed iff no slash follows or the word holds no flag letter |
| BatchProofs.KeywordReloads | src/debug/HyprCtl.cpp:2080-2101 | keyword with a path in its value asks for a reload |
| BatchProofs.RewriteTyped | hyprctl/src/main.cpp:342-345 | the rewrite turns typed commands into rewritten, flagged ones joined by a bare ';' |
| BatchProofs.VerticalTabStays | hyprctl/src/main.cpp:343 | the rewrite eats any spaces, tabs, newlines, form feeds and carriage returns after a semicolon, but not a vertical tab |
| BatchProofs.RewrittenIsCommand | hyprctl/src/main.cpp:343 | the rewrite neither makes nor breaks a command, so the server splits where the client typed |
| BatchProofs.ClientServerAgree | hyprctl/src/main.cpp:339-349 | the server reads each typed command as one JSON request, in order, whatever spaces, tabs, newlines, form feeds and carriage returns follow the separators; its body is the command's up to trailing whitespace iff the command has no semicolon |
| BatchProofs.RewriteUnchanged | hyprctl/src/main.cpp:343 | the rewrite leaves a command alone up to trailing whitespace iff it has no semicolon, brackets or not |
| BatchProofs.BracketsDoNotProtect | hyprctl/src/main.cpp:339-349 | a bracketed semicolon that the server would leave alone is rewritten under -j |
| JsonEscape.EscapeJsonStrings | src/helpers/MiscFunctions.cpp:85-105 | the loop appends the escape of every byte in order |
| JsonEscape.DecodeUndoesEscape | src/helpers/MiscFunctions.cpp:85-105 | decoding the output gives the input back, for every byte string |
| JsonEscape.EscapeInjective | src/helpers/MiscFunctions.cpp:85-105 | different inputs have different outputs |
| JsonEscape.EscapeConcat | src/helpers/MiscFunctions.cpp:85-105 | escaping distributes over concatenation |
| JsonEscape.EscapeIsShortest | src/helpers/MiscFunctions.cpp:85-105 | no text that decodes to the input is shorter |
| JsonEscape.HexIsLowerCase | src/helpers/MiscFunctions.cpp:96-97 | other control characters get four lower-case digits |
| JsonEscape.NoRawControl | src/helpers/MiscFunctions.cpp:96-101 | no raw control byte in the output |
| JsonEscape.QuotesAreEscaped | src/helpers/MiscFunctions.cpp:89-90 | every quote in the output is escaped and the output ends outside an escape |
| JsonEscape.TokenEndsAtClosingQuote | src/helpers/MiscFunctions.cpp:85-105 | followed by a quote, the string token ends exactly there |
| Instance.ParseInstance | hyprctl/src/main.cpp:100-138 | the field-by-field parser reads time from the name and pid and socket from the file, or nothing (its two halves are methods of their own) |
| Instance.SignatureTime | src/Compositor.cpp:211 | the time is read back iff the hash has no underscore and the time fits 64 bits |
| Instance.LockContents | src/Compositor.cpp:794-800 | pid and socket are read back iff the pid fits and the socket name is one line |
| Instance.ThirdLineExact | hyprctl/src/main.cpp:100-138 | what follows the two lines of a lock file is refused iff it starts with a nonempty line |
| Instance.OneLineIsNoLock | hyprctl/src/main.cpp:100-138 | a lock file of one line is refused |
| Instance.InstanceRoundTrip | hyprctl/src/main.cpp:92-138 | parsing what the compositor wrote returns the same instance, iff those conditions hold |
| SocketWrite.SuccessWrite | src/debug/HyprCtl.cpp:2174-2207 | result, bytes delivered and writes made, and that it ends when no write takes zero bytes |
| SocketWrite.SuccessMeansDelivered | src/debug/HyprCtl.cpp:2180-2206 | success means complete delivery; otherwise a prefix is delivered |
| SocketWrite.SuccessExact | src/debug/HyprCtl.cpp:2180-2206 | success iff some number of writes delivers everything without an error and without more than 20 refusals in a row |
| SocketWrite.ErrorStops | src/debug/HyprCtl.cpp:2189-2198 | an error ends the loop at once, also an interrupted write |
| SocketWrite.WriteTakes | src/debug/HyprCtl.cpp:2182-2204 | a write takes what the socket grants, up to what is left |
| SocketWrite.FailureAfterDeliveryExact | src/debug/HyprCtl.cpp:2180-2206 | for every script: failure with everything delivered iff the write after the first run of more than 20 refusals takes all that is left |
| SocketWrite.FailureAfterDelivery | src/debug/HyprCtl.cpp:2181-2186 | such a run: 21 refusals, then one complete write |
| SocketWrite.WriteAll | hyprctl/src/main.cpp:57-73 | success iff everything was delivered, and iff some number of writes delivers it with only interruptions between; always a prefix; ends unless interrupted forever |
| SocketWrite.InterruptionsAreWaitedOut | hyprctl/src/main.cpp:57-73 | any number of interruptions is waited out |
| SocketWrite.OthersEndIt | hyprctl/src/main.cpp:57-73 | a failed or refused write, or one that takes nothing, ends it |
| DamageBatch.Collect | src/animation/AnimationManager.cpp:191-256 | the collection loops build the records, one variable at a time |
| DamageBatch.DamageOnce | src/animation/AnimationManager.cpp:266-333 | one pass over the records damages exactly what each record stands for |
| DamageBatch.Tick | src/animation/AnimationManager.cpp:258-339 | damaged cells, scheduled and blur-outdated monitors and motion records are those of the collected records, before and after the move |
| DamageBatchProofs.OwnerIsMoved | src/animation/AnimationManager.cpp:197-249 | a live variable damages its window, without one its workspace, without either its layer, and otherwise nothing |
| DamageBatchProofs.RecordsAreRight | src/animation/AnimationManager.cpp:194-256 | one record per owner with a variable and a monitor; a flag is set iff some variable asked for it |
| DamageBatchProofs.FirstAppearanceOrder | src/animation/AnimationManager.cpp:194-256 | records stand in first-appearance order |
| DamageBatchProofs.WindowDamageIsUnion | src/animation/AnimationManager.cpp:77-95 | a window's batched damage is the union of its variables' requests |
| DamageBatchProofs.BatchIsNoMore | src/animation/AnimationManager.cpp:266-339 | the batch damages nothing that no variable asked for |
| DamageBatchProofs.BatchIsNaive | src/animation/AnimationManager.cpp:266-339 | damaging once per owner covers exactly the per-variable requests |
| DamageBatchProofs.FramesAreNaive | src/animation/AnimationManager.cpp:335-336 | frames are scheduled on exactly the owners' monitors without a fullscreen window |
| DamageBatchProofs.BlurIsNaive | src/animation/AnimationManager.cpp:326-333 | the blur is outdated on exactly the monitors where some variable moves a whole bottom layer |
| DamageBatchProofs.MotionOncePerWindow | src/animation/AnimationManager.cpp:258-311 | every animated window with a monitor is told its motion exactly once, and no other |
| Keyboard.CKeyboard.UpdatePressed | src/devices/IKeyboard.cpp:433-447 | new pressed list and whether it changed |
| Keyboard.CKeyboard.UpdateModifiersState | src/devices/IKeyboard.cpp:397-415 | the modifiers become xkb's, and whether that changed them |
| Keyboard.CKeyboard.UpdateXkbStateWithKey | src/devices/IKeyboard.cpp:417-431 | xkb is told the key, modifiers are refreshed, and iff they changed the second state gets the layout and an event is emitted |
| Keyboard.CKeyboard.UpdateModifiers | src/devices/IKeyboard.cpp:375-395 | the mask step: both xkb states, the modifiers, and iff they changed the event and the LEDs |
| Keyboard.CKeyboard.OnKey | src/devices/Keyboard.cpp:31-42 | the key listener's step |
| Keyboard.CKeyboard.OnModifiers | src/devices/Keyboard.cpp:44-53 | the modifiers listener's step |
| Keyboard.CKeyboard.Drive | src/devices/Keyboard.cpp:31-53 | a whole run of events is the run of their steps |
| KeyboardProofs.PressedIsLatest | src/devices/IKeyboard.cpp:433-451 | after any run the list holds exactly the keys whose latest event was a press, each once |
| KeyboardProofs.PressedInOrder | src/devices/IKeyboard.cpp:433-447 | the list stands in the order in which the keys went down |
| KeyboardProofs.CallsAlternate | src/devices/Keyboard.cpp:31-42 | the calls to xkb about each key strictly alternate, starting with down |
| KeyboardProofs.StateIsReplayed | src/devices/IKeyboard.cpp:375-431 | the xkb state after any run is that of the effective presses and releases, eight above the key code, and the masks, in order |
| KeyboardProofs.EmittedExact | src/devices/IKeyboard.cpp:375-431 | what listeners and the device are told over any run, in order: key events, modifiers when they changed or the backend says so, and LEDs when a mask changed them |
| KeyboardProofs.RunKeepsSync | src/devices/IKeyboard.cpp:375-431 | last emitted modifiers, stored modifiers and xkb agree after every run that starts in sync |
| KeyboardProofs.FreshSyncExact | src/devices/IKeyboard.cpp:375-431 | after any run from a fresh keyboard the three agree iff they did at the start or something other than releases happened |
| KeyboardProofs.SymFollowsLayout | src/devices/IKeyboard.cpp:375-431 | the xkb state that keybinds can be resolved with has the layout of the keyboard after every run |
| KeyboardProofs.SymHoldsNoModifiers | src/devices/IKeyboard.cpp:381-422 | the second xkb state never holds modifiers |
| KeyboardProofs.KeysAreForwarded | src/devices/Keyboard.cpp:34-38 | every key event is passed on once, in order, repeated ones included |
| ConfigTree.InsertRoute | meta/generateLuaStubs.py:295-314 | the inner loop records one entry per route part |
| ConfigTree.ConfigValuesToConfigTree | meta/generateLuaStubs.py:292-315 | the table is the insertion of all routes in order |
| ConfigTreeProofs.NamesDiffer | meta/generateLuaStubs.py:308 | dotted class names identify the path of names they were built from |
| ConfigTreeProofs.NothingLostExact | meta/generateLuaStubs.py:292-315 | every route leads to its own type iff no two routes clash in one place |
| ConfigTreeProofs.WalksAreRoutes | meta/generateLuaStubs.py:292-315 | when the routes are closed under swapping members where they meet, every complete walk is an input route |
| ConfigTreeProofs.WalksCanMix | meta/generateLuaStubs.py:303-314 | when two segments get one name, a walk can mix two routes into one that was never given |
| ConfigTreeProofs.StubWalksMix | meta/generateLuaStubs.py:277-315 | two dotted keys for which the generated table admits a key that was never given |
| ConfigTreeProofs.LeavesMayCollide | meta/generateLuaStubs.py:292-315 | members of one class that share a name at the end of their routes do no harm |
| ConfigTreeProofs.PrefixFreeIsClashFree | meta/generateLuaStubs.py:292-315 | routes of which none is a prefix of another do not clash, with injective naming |
| ConfigTreeProofs.ApartIsFaithful | meta/generateLuaStubs.py:292-315 | routes of which none is a prefix of another, under injective naming, are such a case |
| ConfigTreeProofs.TreeIsFaithful | meta/generateLuaStubs.py:292-315 | following the table and the input routes are the same thing iff no two routes clash and the routes are closed under swapping members where they meet |
| ConfigTreeProofs.StubTreeIsFaithful | meta/generateLuaStubs.py:277-315 | the same iff for dotted keys and Pascal case |
| ConfigTreeProofs.JoinUndoesSplit | meta/generateLuaStubs.py:296 | splitting a key at its dots forgets nothing |
| ConfigTreeProofs.PascalIsCamel | meta/generateLuaStubs.py:277-280 | Pascal case drops underscores and upper-cases what follows one or starts the name, lower-cases the rest, and spells OpenGL |
| ConfigTreeProofs.TableOfOneKey | meta/generateLuaStubs.py:292-315 | a key of three segments gives three classes, each named by the segments before it |

## Left out

- Text of relative selectors: `isNumber` and `stof` on the digits after `r+`, `m-` and so on; the resolver starts from the direction and an integer in the range of `int`.
- Workspace queries, monitor lookup and focus state are inputs; `special`, `name:`, `prev`, `next`, plain `+N`/`-N` and plain numbers are library lookups or one-line arithmetic.
- Machine widths other than the `size_t` index arithmetic, the `INT32_MAX` walk cap, `LONG_MAX` in `empty`, `stoll` and `uint64_t` parsing: other integers are unbounded.
- WorkspaceResolver.ResolveOnMonitor: workspace ids are assumed distinct and workspaces plus rules at most INT32_MAX in number, which the workspace list and the `int` counter presuppose.
- WorkspaceResolver.CycleId: the list of workspaces is nonempty; the source divides by its size.
- WorkspaceResolver.ResolveCycle: the same, on the collected list.
- WorkspaceResolverProofs.LandsOnAllowed: assumes the INT32_MAX cap is out of reach, for r-N only when nothing is named.
- WorkspaceResolverProofs.TurnAround: assumes the INT32_MAX cap is out of reach.
- WorkspaceResolverProofs.BackwardExactWithin: assumes the INT32_MAX cap is out of reach when nothing is named.
- WorkspaceResolverProofs.BackwardExactFromForbidden: assumes the same.
- SelectorProofs.FullscreenPartitions: assumes that a workspace has a fullscreen window exactly when its mode is not none.
- HyprCtl.CHyprCtl.GetReply: the batch command is assumed to be registered only under its own name, as a prefix.
- WorkspaceResolverProofs.TurnAroundExact: assumes the INT32_MAX cap is out of reach.
- WorkspaceResolverProofs.ForwardAcrossSeam: assumes the INT32_MAX cap is out of reach.
- Hyprutils' `trim` and `isNumber`, `Config::ParserUtils::parseInt`, `std::stoi` in `f[...]` and RE2 are library code: the first two and the one RE2 pattern are specified functions, the others are arbitrary functions.
- Batches with unbalanced brackets beyond `SplitExact`: the text after the last top-level ';' is not dispatched.
- Command handlers and the work of `reloadAll` are arbitrary transformers of an arbitrary compositor state; that they may register or remove commands while a request is served is not modelled.
- JsonEscape.DecodeUndoesEscape: the decoder works on bytes and does not check that unescaped bytes are UTF-8.
- File system, sockets, polling, `kill` of stale instances, environment variables and sorting of instances.
- SocketWrite.SuccessWrite: needs that no write takes zero bytes, since the loop would not end then.
- SocketWrite.WriteAll: needs that signals do not interrupt every write forever, for the same reason.
- Logging and the animation curves of the tick; a workspace's pre-damage is one region.
- Null xkb states, the static xkb state, keyboards without a device behind them, and keymap compilation, which resets xkb without syncing.
- Python's Unicode `capitalize`: Pascal case changes ASCII letters only.
- Emission of the Lua text, overlays, rendering, input beyond the keyboard, and configuration parsing.
