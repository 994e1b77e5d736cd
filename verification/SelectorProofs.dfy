// What selectors mean: a selector is the conjunction of its bracketed parts, and
// printed ranges and counts are matched exactly.
module SelectorProofs {
  import opened Common
  import opened Text
  import opened Selector

  // ---------- A selector is a conjunction ----------

  // A letter, '[', a body without ']', and ']'.
  ghost predicate IsPiece(p: string) {
    && |p| >= 3
    && !IsSpace(p[0]) && p[1] == '[' && p[|p| - 1] == ']'
    && ']' !in p[..|p| - 1]
  }

  // Pieces with whitespace between them (possibly none).
  ghost function Joined(pieces: seq<string>, gaps: seq<string>): string
    requires |pieces| > 0 && |gaps| == |pieces| - 1
  {
    if |pieces| == 1 then pieces[0] else pieces[0] + gaps[0] + Joined(pieces[1..], gaps[1..])
  }

  ghost predicate Spaces(gaps: seq<string>) {
    forall g :: g in gaps ==> AllSpace(g)
  }

  ghost predicate Pieces(pieces: seq<string>) {
    forall p :: p in pieces ==> IsPiece(p)
  }

  lemma {:induction false} PropsSkipSpace(space: string, rest: string)
    requires AllSpace(space)
    ensures Props(space + rest) == Props(rest)
  {
    if space == [] {
      assert space + rest == rest;
    } else {
      assert (space + rest)[1..] == space[1..] + rest;
      PropsSkipSpace(space[1..], rest);
    }
  }

  // The scanner's index jump takes exactly one piece off the front.
  lemma {:induction false} FrontOfPiece(p: string, rest: string)
    requires IsPiece(p)
    ensures Front(p + rest) == p && (p + rest)[|p|..] == rest
    ensures Props(p + rest) == [p] + Props(rest)
  {}

  // Splitting undoes joining: the scanner visits exactly the pieces, in order.
  lemma {:induction false} PropsOfJoined(pieces: seq<string>, gaps: seq<string>)
    requires |pieces| > 0 && |gaps| == |pieces| - 1 && Pieces(pieces) && Spaces(gaps)
    ensures Props(Joined(pieces, gaps)) == pieces
  {
    assert pieces[0] in pieces;
    if |pieces| == 1 {
      assert pieces[0] == pieces[0] + [];
      FrontOfPiece(pieces[0], []);
    } else {
      var rest := Joined(pieces[1..], gaps[1..]);
      assert pieces[0] + gaps[0] + rest == pieces[0] + (gaps[0] + rest);
      FrontOfPiece(pieces[0], gaps[0] + rest);
      PropsSkipSpace(gaps[0], rest);
      PropsOfJoined(pieces[1..], gaps[1..]);
    }
  }

  lemma {:induction false} JoinedEnds(pieces: seq<string>, gaps: seq<string>)
    requires |pieces| > 0 && |gaps| == |pieces| - 1 && Pieces(pieces) && Spaces(gaps)
    ensures var s := Joined(pieces, gaps);
            |s| >= 3 && !IsSpace(s[0]) && s[1] == '[' && s[|s| - 1] == ']'
  {
    assert pieces[0] in pieces;
    if |pieces| > 1 {
      JoinedEnds(pieces[1..], gaps[1..]);
    }
  }

  // Text of that shape is neither a number, nor "name:...", nor "special...".
  lemma {:induction false} BracketSecond(s: string)
    requires |s| >= 3 && s[1] == '[' && s[|s| - 1] == ']'
    ensures !IsNumber(s) && !("name:" <= s) && !("special" <= s)
  {
    assert "name:"[1] == 'a' && "special"[1] == 'p';
  }

  lemma {:induction false} GoesToScanner(world: World, ws: Workspace, lead: string, s: string, tail: string)
    requires |s| >= 3 && !IsSpace(s[0]) && s[1] == '[' && s[|s| - 1] == ']'
    requires AllSpace(lead) && AllSpace(tail)
    ensures Matches(world, ws, lead + s + tail) == AllMatch(world, ws, Props(s))
  {
    TrimCore(lead, s, tail);
    BracketSecond(s);
  }

  // The whole matcher on one or more pieces, with whitespace anywhere around them.
  lemma {:induction false} MatchesJoined(world: World, ws: Workspace, lead: string, pieces: seq<string>,
      gaps: seq<string>, tail: string)
    requires |pieces| > 0 && |gaps| == |pieces| - 1 && Pieces(pieces) && Spaces(gaps)
    requires AllSpace(lead) && AllSpace(tail)
    ensures Matches(world, ws, lead + Joined(pieces, gaps) + tail) <==>
            forall p :: p in pieces ==> PropMatches(world, ws, p)
  {
    JoinedEnds(pieces, gaps);
    GoesToScanner(world, ws, lead, Joined(pieces, gaps), tail);
    PropsOfJoined(pieces, gaps);
  }

  lemma {:induction false} MatchesPiece(world: World, ws: Workspace, p: string)
    requires IsPiece(p)
    ensures Matches(world, ws, p) <==> PropMatches(world, ws, p)
  {
    MatchesJoined(world, ws, [], [p], [], []);
    assert [] + p + [] == p;
    assert p in [p];
  }

  // The joined selector matches iff every piece matches alone.
  lemma {:induction false} SelectorIsConjunction(world: World, ws: Workspace, lead: string, pieces: seq<string>,
      gaps: seq<string>, tail: string)
    requires |pieces| > 0 && |gaps| == |pieces| - 1 && Pieces(pieces) && Spaces(gaps)
    requires AllSpace(lead) && AllSpace(tail)
    ensures Matches(world, ws, lead + Joined(pieces, gaps) + tail) <==>
            forall p :: p in pieces ==> Matches(world, ws, p)
  {
    MatchesJoined(world, ws, lead, pieces, gaps, tail);
    forall p | p in pieces
      ensures Matches(world, ws, p) <==> PropMatches(world, ws, p)
    {
      MatchesPiece(world, ws, p);
    }
  }

  // The empty selector is the unit of that conjunction.
  lemma {:induction false} BlankMatches(world: World, ws: Workspace, blank: string)
    requires AllSpace(blank)
    ensures Matches(world, ws, blank)
  {
    TrimCore(blank, [], []);
    assert blank + [] + [] == blank;
  }

  // Neither the order nor the repetition of pieces matters, nor the whitespace.
  lemma {:induction false} OrderIsIrrelevant(world: World, ws: Workspace, pieces: seq<string>, gaps: seq<string>,
      pieces': seq<string>, gaps': seq<string>)
    requires |pieces| > 0 && |gaps| == |pieces| - 1 && Pieces(pieces) && Spaces(gaps)
    requires |pieces'| > 0 && |gaps'| == |pieces'| - 1 && Spaces(gaps')
    requires forall p :: p in pieces <==> p in pieces'
    ensures Matches(world, ws, Joined(pieces, gaps)) == Matches(world, ws, Joined(pieces', gaps'))
  {
    SelectorIsConjunction(world, ws, [], pieces, gaps, []);
    SelectorIsConjunction(world, ws, [], pieces', gaps', []);
    assert [] + Joined(pieces, gaps) + [] == Joined(pieces, gaps);
    assert [] + Joined(pieces', gaps') + [] == Joined(pieces', gaps');
  }

  // The index jumps lead to the very end: when the text does not end in ']', the last
  // part visited has no closing bracket.
  lemma {:induction false} EndsUnclosed(world: World, ws: Workspace, rest: string)
    requires rest != [] && !IsSpace(rest[|rest| - 1]) && rest[|rest| - 1] != ']'
    ensures !AllMatch(world, ws, Props(rest))
    decreases |rest|
  {
    if IsSpace(rest[0]) {
      EndsUnclosed(world, ws, rest[1..]);
    } else {
      var prop := Front(rest);
      assert Props(rest) == [prop] + Props(rest[|prop|..]);
      if prop == rest {
        assert !PropMatches(world, ws, prop) && prop in Props(rest);
      } else {
        EndsUnclosed(world, ws, rest[|prop|..]);
        assert forall p :: p in Props(rest[|prop|..]) ==> p in Props(rest);
      }
    }
  }

  lemma {:induction false} TrimEndsInText(s: string)
    ensures TrimRight(s) != [] ==> !IsSpace(TrimRight(s)[|TrimRight(s)| - 1])
  {
    if s != [] && IsSpace(s[|s| - 1]) {
      TrimEndsInText(s[..|s| - 1]);
    }
  }

  // What is left to the scanner.
  ghost predicate IsScanned(selector: string) {
    selector != [] && !IsNumber(selector) && !("name:" <= selector) && !("special" <= selector)
  }

  // A selector that does not end in ']' never matches, whatever its parts before are:
  // the index jump past the end of the text does not let it through.
  lemma {:induction false} UnclosedNeverMatches(world: World, ws: Workspace, text: string)
    requires var s := Trim(text); IsScanned(s) && s[|s| - 1] != ']'
    ensures !Matches(world, ws, text)
  {
    TrimEndsInText(TrimLeft(text));
    EndsUnclosed(world, ws, Trim(text));
  }

  // One part with a letter that is not known, and the selector never matches.
  lemma {:induction false} UnknownLetterNeverMatches(world: World, ws: Workspace, pieces: seq<string>,
      gaps: seq<string>, p: string)
    requires |pieces| > 0 && |gaps| == |pieces| - 1 && Pieces(pieces) && Spaces(gaps)
    requires p in pieces && p[0] !in {'r', 's', 'm', 'n', 'w', 'f'}
    ensures !Matches(world, ws, Joined(pieces, gaps))
  {
    MatchesJoined(world, ws, [], pieces, gaps, []);
    assert [] + Joined(pieces, gaps) + [] == Joined(pieces, gaps);
  }

  // ---------- Selectors without brackets ----------

  // The six characters that are trimmed.
  ghost predicate Blank(s: string) {
    forall c :: c in s ==> c in {' ', '\t', '\n', 11 as char, 12 as char, '\r'}
  }

  // Ends with something else.
  ghost predicate EndsInText(s: string) {
    s != [] && s[|s| - 1] !in {' ', '\t', '\n', 11 as char, 12 as char, '\r'}
  }

  lemma {:induction false} BlankIsSpace(s: string)
    ensures Blank(s) <==> AllSpace(s)
    ensures s != [] ==> (EndsInText(s) <==> !IsSpace(s[|s| - 1]))
  {}

  lemma {:induction false} TrimLeftKeeps(s: string, tail: string)
    requires TrimLeft(s) != []
    ensures TrimLeft(s + tail) == TrimLeft(s) + tail
  {
    if IsSpace(s[0]) {
      assert (s + tail)[1..] == s[1..] + tail;
      TrimLeftKeeps(s[1..], tail);
    }
  }

  lemma {:induction false} TrimLeftOfSpace(s: string, tail: string)
    requires TrimLeft(s) == [] && AllSpace(tail)
    ensures TrimLeft(s + tail) == []
  {
    if s == [] {
      assert s + tail == tail + [];
      TrimLeftDrops(tail, []);
    } else {
      assert (s + tail)[1..] == s[1..] + tail;
      TrimLeftOfSpace(s[1..], tail);
    }
  }

  lemma {:induction false} TrimDropsAround(lead: string, s: string, tail: string)
    requires AllSpace(lead) && AllSpace(tail)
    ensures Trim(lead + s + tail) == Trim(s)
  {
    Regroup(lead, s, tail);
    TrimLeftDrops(lead, s + tail);
    if TrimLeft(s) == [] {
      TrimLeftOfSpace(s, tail);
    } else {
      TrimLeftKeeps(s, tail);
      TrimRightDrops(TrimLeft(s), tail);
    }
  }

  // Whitespace around any selector does not matter.
  lemma {:induction false} WhitespaceIsIgnored(world: World, ws: Workspace, lead: string, s: string, tail: string)
    requires forall c :: c in lead || c in tail ==> c in {' ', '\t', '\n', 11 as char, 12 as char, '\r'}
    ensures Matches(world, ws, lead + s + tail) <==> Matches(world, ws, s)
  {
    BlankIsSpace(lead);
    BlankIsSpace(tail);
    TrimDropsAround(lead, s, tail);
  }

  lemma {:induction false} TrimNothing(s: string)
    requires s != [] && !IsSpace(s[0]) && !IsSpace(s[|s| - 1])
    ensures Trim(s) == s
  {}

  // A number matches exactly the workspace whose id it resolves to, and none when it
  // resolves to -1.
  lemma {:induction false} NumberSelectorExact(world: World, ws: Workspace, lead: string, sign: string, digits: string,
      tail: string)
    requires Blank(lead) && Blank(tail) && sign in {"", "-"} && Digits(digits)
    ensures Matches(world, ws, lead + (sign + digits) + tail) <==>
            ws.id == world.resolve(sign + digits) && world.resolve(sign + digits) != -1
  {
    var s := sign + digits;
    assert forall i :: 0 <= i < |digits| ==> digits[i] in digits;
    assert s[|s| - 1] == digits[|digits| - 1];
    TrimNothing(s);
    WhitespaceIsIgnored(world, ws, lead, s, tail);
  }

  // Hence at most one workspace id matches a number.
  lemma {:induction false} NumberMatchesOneId(world: World, ws: Workspace, ws': Workspace, sign: string, digits: string)
    requires sign in {"", "-"} && Digits(digits)
    requires Matches(world, ws, sign + digits) && Matches(world, ws', sign + digits)
    ensures ws.id == ws'.id != -1
  {
    assert [] + (sign + digits) + [] == sign + digits;
    NumberSelectorExact(world, ws, [], sign, digits, []);
    NumberSelectorExact(world, ws', [], sign, digits, []);
  }

  // "name:" and a name matches exactly the workspaces of that name.
  lemma {:induction false} NameSelectorExact(world: World, ws: Workspace, lead: string, name: string, tail: string)
    requires Blank(lead) && Blank(tail) && (name == [] || EndsInText(name))
    ensures Matches(world, ws, lead + ("name:" + name) + tail) <==> ws.name == name
  {
    var s := "name:" + name;
    BlankIsSpace(name);
    assert s[0] == 'n' && s[5..] == name && (name != [] ==> s[|s| - 1] == name[|name| - 1]);
    TrimNothing(s);
    WhitespaceIsIgnored(world, ws, lead, s, tail);
  }

  // Text that starts with "special" matches exactly the workspaces of that whole name.
  lemma {:induction false} SpecialNameExact(world: World, ws: Workspace, lead: string, rest: string, tail: string)
    requires Blank(lead) && Blank(tail) && (rest == [] || EndsInText(rest))
    ensures Matches(world, ws, lead + ("special" + rest) + tail) <==> ws.name == "special" + rest
  {
    var s := "special" + rest;
    BlankIsSpace(rest);
    assert s[0] == 's' && (rest != [] ==> s[|s| - 1] == rest[|rest| - 1]);
    TrimNothing(s);
    WhitespaceIsIgnored(world, ws, lead, s, tail);
  }

  // ---------- Printing and matching numbers ----------

  function Piece(letter: char, body: string): string {
    [letter] + "[" + body + "]"
  }

  lemma {:induction false} PieceOf(letter: char, body: string)
    requires !IsSpace(letter) && letter != ']' && ']' !in body
    ensures IsPiece(Piece(letter, body)) && Body(Piece(letter, body)) == body
  {}

  // ---------- Number ranges ----------

  // The characters 0 to 9, at least one.
  ghost predicate Digits(s: string) {
    s != [] && forall c :: c in s ==> '0' <= c <= '9'
  }

  // Two decimal numbers around a dash.
  ghost predicate ReadsAs(text: string, lhs: string, rhs: string, a: int, b: int) {
    && text == lhs + ['-'] + rhs
    && Digits(lhs) && DigitsValue(lhs) == a
    && Digits(rhs) && DigitsValue(rhs) == b
  }

  lemma {:induction false} DigitsAreNumber(s: string)
    requires s != [] && AllDigits(s)
    ensures IsNumber(s) && NumberValue(s) == DigitsValue(s) && '-' !in s
  {
    assert forall i :: 0 <= i < |s| ==> s[i] in s;
  }

  lemma {:induction false} DigitsValueNonneg(s: string)
    requires AllDigits(s)
    ensures DigitsValue(s) >= 0
  {
    if s != [] {
      DigitsValueNonneg(s[..|s| - 1]);
    }
  }

  // A positive number has no sign.
  lemma {:induction false} PositiveIsDigits(s: string)
    requires IsNumber(s) && NumberValue(s) >= 1
    ensures AllDigits(s) && DigitsValue(s) == NumberValue(s)
  {
    if s[0] == '-' {
      assert AllDigits(s[1..]);
      DigitsValueNonneg(s[1..]);
    }
  }

  // A range text is accepted exactly when it is two decimal numbers around a dash, with
  // 1 <= a <= b and both in 64 bits; signs, spaces and empty sides are not.
  lemma {:induction false} RangeOfExact(text: string, a: int, b: int)
    ensures RangeOf(text) == Some((a, b)) <==>
            1 <= a <= b <= 0x7fff_ffff_ffff_ffff && exists lhs, rhs :: ReadsAs(text, lhs, rhs, a, b)
  {
    if RangeOf(text) == Some((a, b)) {
      var dash := FirstOf(text, '-');
      var lhs, rhs := text[..dash], text[dash + 1..];
      PositiveIsDigits(lhs);
      PositiveIsDigits(rhs);
      assert ReadsAs(text, lhs, rhs, a, b);
    }
    forall lhs, rhs | ReadsAs(text, lhs, rhs, a, b) && 1 <= a <= b <= 0x7fff_ffff_ffff_ffff
      ensures RangeOf(text) == Some((a, b))
    {
      RangeIsRead(text, lhs, rhs, a, b);
    }
  }

  lemma {:induction false} RangeIsRead(text: string, lhs: string, rhs: string, a: int, b: int)
    requires ReadsAs(text, lhs, rhs, a, b) && 1 <= a <= b <= 0x7fff_ffff_ffff_ffff
    ensures RangeOf(text) == Some((a, b))
  {
    DigitsAreNumber(lhs);
    DigitsAreNumber(rhs);
    FirstOfPrefix(lhs, '-', rhs);
    assert text[|lhs|] == '-';
    assert text[..|lhs|] == lhs && text[|lhs| + 1..] == rhs;
  }

  lemma {:induction false} RangeOfPrinted(a: nat, b: nat)
    ensures RangeOf(Decimal(a) + "-" + Decimal(b)) == if 1 <= a <= b <= INT64_MAX then Some((a, b)) else None
    ensures ']' !in Decimal(a) + "-" + Decimal(b)
  {
    DecimalIsNumber(a);
    DecimalIsNumber(b);
    FirstOfPrefix(Decimal(a), '-', Decimal(b));
    var text := Decimal(a) + "-" + Decimal(b);
    assert text == Decimal(a) + ['-'] + Decimal(b);
    assert text[..|Decimal(a)|] == Decimal(a);
    assert text[|Decimal(a)| + 1..] == Decimal(b);
    assert text[|Decimal(a)|] == '-';
  }

  // r[a-b] printed in decimal matches exactly the ids from a to b; a bound that
  // does not fit 64 bits makes the selector invalid, and so does an empty range.
  lemma {:induction false} RangeSelectorExact(world: World, ws: Workspace, a: nat, b: nat)
    ensures Matches(world, ws, Piece('r', Decimal(a) + "-" + Decimal(b))) <==>
            1 <= a <= ws.id <= b <= 0x7fff_ffff_ffff_ffff
  {
    RangeOfPrinted(a, b);
    PieceOf('r', Decimal(a) + "-" + Decimal(b));
    MatchesPiece(world, ws, Piece('r', Decimal(a) + "-" + Decimal(b)));
  }

  // The numbers are decimal.
  lemma {:induction false} DecimalSample(world: World, ws: Workspace, body: string)
    requires body == "7-12"
    ensures Matches(world, ws, Piece('r', body)) <==> 7 <= ws.id <= 12
  {
    assert Decimal(7) == "7" && Decimal(1) == "1" && Decimal(12) == Decimal(1) + "2";
    assert body == Decimal(7) + "-" + Decimal(12);
    RangeSelectorExact(world, ws, 7, 12);
  }

  // ---------- The other letters ----------

  lemma {:induction false} PieceMatches(world: World, ws: Workspace, letter: char, body: string)
    requires letter in {'s', 'm', 'n', 'f'} && ']' !in body
    ensures IsPiece(Piece(letter, body)) && Body(Piece(letter, body)) == body
    ensures Matches(world, ws, Piece(letter, body)) <==> PropMatches(world, ws, Piece(letter, body))
  {
    PieceOf(letter, body);
    MatchesPiece(world, ws, Piece(letter, body));
  }

  // The texts that read as nonzero and those that read as zero divide the workspaces
  // into special and normal ones; unreadable text does not restrict anything.
  lemma {:induction false} SpecialPartitions(world: World, ws: Workspace, yes: string, no: string, unread: string)
    requires ']' !in yes && ']' !in no && ']' !in unread
    requires world.parseInt(yes).Some? && world.parseInt(yes).value != 0
    requires world.parseInt(no) == Some(0) && world.parseInt(unread) == None
    ensures Matches(world, ws, Piece('s', yes)) <==> ws.special
    ensures Matches(world, ws, Piece('s', no)) <==> !Matches(world, ws, Piece('s', yes))
    ensures Matches(world, ws, Piece('s', unread))
  {
    PieceMatches(world, ws, 's', yes);
    PieceMatches(world, ws, 's', no);
    PieceMatches(world, ws, 's', unread);
  }

  // The text names monitor m, and the workspace is on it.
  ghost predicate OnMonitor(world: World, ws: Workspace, text: string, m: int) {
    world.monitorOf(text) == Some(m) == ws.monitor
  }

  // Two monitor parts in one selector match exactly when both name the one monitor the
  // workspace is on.
  lemma {:induction false} MonitorsAgree(world: World, ws: Workspace, a: string, b: string, gap: string)
    requires ']' !in a && ']' !in b && AllSpace(gap)
    ensures Matches(world, ws, Piece('m', a) + gap + Piece('m', b)) <==>
            exists m :: OnMonitor(world, ws, a, m) && OnMonitor(world, ws, b, m)
  {
    PieceMatches(world, ws, 'm', a);
    PieceMatches(world, ws, 'm', b);
    TwoPieces(world, ws, Piece('m', a), gap, Piece('m', b));
    if MonitorMatches(world, ws, a) && MonitorMatches(world, ws, b) {
      assert OnMonitor(world, ws, a, ws.monitor.value) && OnMonitor(world, ws, b, ws.monitor.value);
    }
  }

  lemma {:induction false} TwoPieces(world: World, ws: Workspace, p: string, gap: string, q: string)
    requires IsPiece(p) && IsPiece(q) && AllSpace(gap)
    ensures Matches(world, ws, p + gap + q) <==> Matches(world, ws, p) && Matches(world, ws, q)
  {
    var pieces, gaps := [p, q], [gap];
    assert Joined(pieces[1..], gaps[1..]) == q;
    SelectorIsConjunction(world, ws, [], pieces, gaps, []);
    assert [] + (p + gap + q) + [] == p + gap + q;
    assert p in pieces && q in pieces;
  }

  // n[s:prefix] n[e:suffix] matches exactly the names that start and end so.
  lemma {:induction false} NameAffixesExact(world: World, ws: Workspace, prefix: string, suffix: string, gap: string)
    requires ']' !in prefix && ']' !in suffix && AllSpace(gap)
    requires world.parseInt("s:" + prefix) == None && world.parseInt("e:" + suffix) == None
    ensures Matches(world, ws, Piece('n', "s:" + prefix) + gap + Piece('n', "e:" + suffix)) <==>
            (exists rest :: ws.name == prefix + rest) && (exists lead :: ws.name == lead + suffix)
  {
    PieceMatches(world, ws, 'n', "s:" + prefix);
    PieceMatches(world, ws, 'n', "e:" + suffix);
    TwoPieces(world, ws, Piece('n', "s:" + prefix), gap, Piece('n', "e:" + suffix));
    PrefixExact(world, ws, prefix);
    SuffixExact(world, ws, suffix);
  }

  lemma {:induction false} PrefixExact(world: World, ws: Workspace, prefix: string)
    requires world.parseInt("s:" + prefix) == None
    ensures NameMatches(world, ws, "s:" + prefix) <==> exists rest :: ws.name == prefix + rest
  {
    assert ("s:" + prefix)[2..] == prefix && ("s:" + prefix)[0] != "e:"[0];
    if prefix <= ws.name {
      assert ws.name == prefix + ws.name[|prefix|..];
    }
  }

  lemma {:induction false} SuffixExact(world: World, ws: Workspace, suffix: string)
    requires world.parseInt("e:" + suffix) == None
    ensures NameMatches(world, ws, "e:" + suffix) <==> exists lead :: ws.name == lead + suffix
  {
    assert ("e:" + suffix)[2..] == suffix && ("e:" + suffix)[0] != "s:"[0];
    if EndsWith(ws.name, suffix) {
      assert ws.name == ws.name[..|ws.name| - |suffix|] + suffix;
    }
  }

  // The texts that read as 1 and as 0 divide the workspaces into named and numbered
  // ones, and any other number matches nothing.
  lemma {:induction false} NamedPartitions(world: World, ws: Workspace, yes: string, no: string, other: string)
    requires ']' !in yes && ']' !in no && ']' !in other
    requires !("s:" <= yes || "e:" <= yes || "s:" <= no || "e:" <= no)
    requires world.parseInt(yes) == Some(1) && world.parseInt(no) == Some(0)
    requires world.parseInt(other).Some? && !(0 <= world.parseInt(other).value <= 1)
    ensures Matches(world, ws, Piece('n', yes)) <==> ws.id <= -1337
    ensures Matches(world, ws, Piece('n', no)) <==> !Matches(world, ws, Piece('n', yes))
    ensures !Matches(world, ws, Piece('n', other))
  {
    NameMatchesOnly(world, ws, yes);
    NameMatchesOnly(world, ws, no);
    NameMatchesOnly(world, ws, other);
  }

  lemma {:induction false} NameMatchesOnly(world: World, ws: Workspace, body: string)
    requires ']' !in body
    ensures Matches(world, ws, Piece('n', body)) <==> NameMatches(world, ws, body)
  {
    PieceMatches(world, ws, 'n', body);
  }

  // With a consistent fullscreen state, exactly one of f[-1], f[0] and f[1] matches. Any
  // other number, f[2] included, matches every workspace, and no number matches none.
  lemma {:induction false} FullscreenPartitions(world: World, ws: Workspace, none: string, full: string,
      maximized: string, other: string, unread: string)
    requires forall s :: s in [none, full, maximized, other, unread] ==> ']' !in s
    requires world.stoi(none) == Some(-1) && world.stoi(full) == Some(0) && world.stoi(maximized) == Some(1)
    requires world.stoi(other).Some? && world.stoi(other).value !in {-1, 0, 1} && world.stoi(unread) == None
    requires ws.hasFullscreen <==> ws.mode != NoMode
    ensures Matches(world, ws, Piece('f', none)) <==>
            !Matches(world, ws, Piece('f', full)) && !Matches(world, ws, Piece('f', maximized))
    ensures !Matches(world, ws, Piece('f', full)) || !Matches(world, ws, Piece('f', maximized))
    ensures Matches(world, ws, Piece('f', other)) && !Matches(world, ws, Piece('f', unread))
  {
    var bodies := [none, full, maximized, other, unread];
    assert forall i :: 0 <= i < 5 ==> bodies[i] in bodies;
    forall i | 0 <= i < 5
      ensures Matches(world, ws, Piece('f', bodies[i])) <==> FullscreenMatches(world, ws, bodies[i])
    {
      PieceMatches(world, ws, 'f', bodies[i]);
    }
    assert none == bodies[0] && full == bodies[1] && maximized == bodies[2] && other == bodies[3];
    assert unread == bodies[4];
  }

  // ---------- Window-count selectors ----------

  // Flag letters, each at most once, and not both 't' and 'f'.
  ghost predicate FlagText(flags: string) {
    && (forall c :: c in flags ==> c in "tfpgv")
    && (forall i, j :: 0 <= i < j < |flags| ==> flags[i] != flags[j])
    && !('t' in flags && 'f' in flags)
  }

  // What the letters ask for.
  function Asked(flags: string): Flags {
    Flags(if 't' in flags then 1 else if 'f' in flags then 0 else -1, 'p' in flags, 'g' in flags, 'v' in flags)
  }

  lemma {:induction false} AskedExtends(done: string, c: char)
    requires FlagText(done + [c])
    ensures AddFlag(Asked(done), c) == Some(Asked(done + [c]))
    ensures FlagText(done)
  {
    var all := done + [c];
    assert forall i :: 0 <= i < |done| ==> all[i] == done[i] && all[i] != all[|done|];
    assert c in all;
    assert c !in done;
  }

  // The flag loop reads all flags, in any order, and stops at the first digit.
  lemma {:induction false} FlagsAreRead(done: string, todo: string, rest: string)
    requires FlagText(done + todo) && (rest != [] ==> IsDigit(rest[0]))
    ensures ScanFlags(Asked(done), todo + rest) == (Asked(done + todo), |todo|)
    decreases |todo|
  {
    if todo == [] {
      assert todo + rest == rest && done + todo == done;
    } else {
      var done' := done + [todo[0]];
      assert done' + todo[1..] == done + todo;
      FlagPrefix(done', todo[1..]);
      AskedExtends(done, todo[0]);
      assert (todo + rest)[1..] == todo[1..] + rest;
      FlagsAreRead(done', todo[1..], rest);
    }
  }

  lemma {:induction false} FlagPrefix(a: string, b: string)
    requires FlagText(a + b)
    ensures FlagText(a)
  {
    var ab := a + b;
    assert forall c :: c in a ==> c in ab;
    assert forall i :: 0 <= i < |a| ==> a[i] == ab[i];
  }

  lemma {:induction false} FlagsThenDigits(flags: string, rest: string)
    requires FlagText(flags) && rest != [] && IsDigit(rest[0])
    ensures ScanFlags(NO_FLAGS, flags + rest) == (Asked(flags), |flags|)
    ensures (flags + rest)[|flags|..] == rest
  {
    assert [] + flags == flags;
    assert Asked([]) == NO_FLAGS;
    FlagsAreRead([], flags, rest);
  }

  // The scan of the flags, up to a character that cannot be one more of them.
  lemma {:induction false} FlagsStopAt(done: string, todo: string, c: char, rest: string)
    requires FlagText(done + todo) && AddFlag(Asked(done + todo), c) == None
    ensures ScanFlags(Asked(done), todo + ([c] + rest)) == (Asked(done + todo), |todo|)
    decreases |todo|
  {
    if todo == [] {
      assert todo + ([c] + rest) == [c] + rest && done + todo == done;
    } else {
      var done' := done + [todo[0]];
      assert done' + todo[1..] == done + todo;
      FlagPrefix(done', todo[1..]);
      AskedExtends(done, todo[0]);
      assert (todo + ([c] + rest))[1..] == todo[1..] + ([c] + rest);
      FlagsStopAt(done', todo[1..], c, rest);
    }
  }

  lemma {:induction false} RefusedFlag(flags: string, c: char)
    requires FlagText(flags) && c in {'t', 'f', 'p', 'g', 'v'}
    requires c in flags || (c == 't' && 'f' in flags) || (c == 'f' && 't' in flags)
    ensures AddFlag(Asked(flags), c) == None
  {}

  // Text that starts with a letter is neither a number nor a range.
  lemma {:induction false} LetterIsNoCount(world: World, ws: Workspace, flags: string, c: char, rest: string)
    requires FlagText(flags) && c in {'t', 'f', 'p', 'g', 'v'} && AddFlag(Asked(flags), c) == None
    ensures !CountMatches(world, ws, flags + ([c] + rest))
  {
    var left := [c] + rest;
    assert [] + flags == flags && Asked([]) == NO_FLAGS;
    FlagsStopAt([], flags, c, rest);
    assert (flags + left)[|flags|..] == left;
    assert left[0] == c && !IsDigit(c) && c != '-';
    var lhs := left[..FirstOf(left, '-')];
    assert FirstOf(left, '-') > 0 && lhs[0] == c;
  }

  // A flag given twice, or both 't' and 'f', and the selector never matches.
  lemma {:induction false} RepeatedFlagNeverMatches(world: World, ws: Workspace, flags: string, c: char, rest: string)
    requires FlagText(flags) && ']' !in rest && c in {'t', 'f', 'p', 'g', 'v'}
    requires c in flags || (c == 't' && 'f' in flags) || (c == 'f' && 't' in flags)
    ensures !Matches(world, ws, Piece('w', flags + ([c] + rest)))
  {
    var body := flags + ([c] + rest);
    FlagsHaveNoBracket(flags);
    RefusedFlag(flags, c);
    PieceOf('w', body);
    MatchesPiece(world, ws, Piece('w', body));
    LetterIsNoCount(world, ws, flags, c, rest);
  }

  lemma {:induction false} FlagsHaveNoBracket(flags: string)
    requires FlagText(flags)
    ensures ']' !in flags
  {}

  // The targets that w[flags] counts, from the letters.
  ghost function TargetsFor(ws: Workspace, flags: string): set<int> {
    if ws.tiles == None then {} else
      set i | 0 <= i < |ws.tiles.value| && TileAsked(ws.tiles.value[i], flags)
  }

  ghost predicate TileAsked(tile: Option<Tile>, flags: string) {
    tile.Some? &&
    var t := tile.value;
    && ('t' in flags ==> !t.floating) && ('f' in flags ==> t.floating)
    && ('p' in flags ==> t.window.Some? && t.window.value.pinned)
    && ('v' in flags ==> t.window.Some? && !t.window.value.hidden && !t.window.value.inputBlocked)
  }

  // The groups that w[flags] counts under 'g'.
  ghost function GroupsFor(world: World, ws: Workspace, flags: string): set<int> {
    set i | 0 <= i < |world.groups| && GroupAsked(world.groups[i], ws.id, flags)
  }

  ghost predicate GroupAsked(g: Group, id: int, flags: string) {
    && g.workspace == id && g.mapped
    && ('t' in flags ==> !g.floating) && ('f' in flags ==> g.floating)
    && ('p' in flags ==> g.pinned)
    && ('v' in flags ==> g.current.Some? && !g.current.value.hidden && !g.current.value.inputBlocked)
  }

  // The count that decides w[flags ...].
  ghost function AskedCount(world: World, ws: Workspace, flags: string): nat {
    if 'g' in flags then |GroupsFor(world, ws, flags)| else |TargetsFor(ws, flags)|
  }

  // The number compared counts what the letters ask for.
  lemma {:induction false} CountIsAsked(world: World, ws: Workspace, flags: string)
    requires FlagText(flags)
    ensures CountFor(world, ws, Asked(flags)) == AskedCount(world, ws, flags)
  {
    var f := Asked(flags);
    if 'g' in flags {
      assert CountedGroups(world, ws, TiledFilter(f), PinnedFilter(f), VisibleFilter(f)) ==
             GroupsFor(world, ws, flags);
    } else {
      assert Counted(ws, TiledFilter(f), PinnedFilter(f), VisibleFilter(f)) == TargetsFor(ws, flags);
    }
  }

  lemma {:induction false} CountMatchesRange(world: World, ws: Workspace, flags: string, rest: string)
    requires FlagText(flags) && rest != [] && IsDigit(rest[0]) && '-' in rest
    ensures CountMatches(world, ws, flags + rest) <==> InRange(CountFor(world, ws, Asked(flags)), RangeOf(rest))
  {
    FlagsThenDigits(flags, rest);
  }

  // w[flags a-b] matches exactly when the number of targets (or groups) the flags
  // select lies in a..b.
  lemma {:induction false} CountSelectorExact(world: World, ws: Workspace, flags: string, a: nat, b: nat)
    requires FlagText(flags)
    ensures Matches(world, ws, Piece('w', flags + (Decimal(a) + "-" + Decimal(b)))) <==>
            1 <= a <= AskedCount(world, ws, flags) <= b <= 0x7fff_ffff_ffff_ffff
  {
    CountIsAsked(world, ws, flags);
    var rest := Decimal(a) + "-" + Decimal(b);
    var body := flags + rest;
    RangeOfPrinted(a, b);
    FlagsHaveNoBracket(flags);
    PieceOf('w', body);
    MatchesPiece(world, ws, Piece('w', body));
    assert rest[0] in Decimal(a);
    assert rest[|Decimal(a)|] == '-';
    CountMatchesRange(world, ws, flags, rest);
  }

  // w[flags n] matches exactly when that number is n (and n fits 64 bits).
  lemma {:induction false} SingleCountSelectorExact(world: World, ws: Workspace, flags: string, n: nat)
    requires FlagText(flags)
    ensures Matches(world, ws, Piece('w', flags + Decimal(n))) <==>
            AskedCount(world, ws, flags) == n <= 0x7fff_ffff_ffff_ffff
  {
    CountIsAsked(world, ws, flags);
    var body := flags + Decimal(n);
    DecimalIsNumber(n);
    FlagsHaveNoBracket(flags);
    PieceOf('w', body);
    MatchesPiece(world, ws, Piece('w', body));
    assert Decimal(n)[0] in Decimal(n);
    FlagsThenDigits(flags, Decimal(n));
  }
}
