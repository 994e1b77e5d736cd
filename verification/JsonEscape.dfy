// escapeJSONStrings, on bytes, and a decoder for the string grammar of section 7 of
// RFC 8259 that it has to agree with.
module JsonEscape {
  import opened Common

  const QUOTE: Byte := 34
  const SLASH: Byte := 47
  const BACKSLASH: Byte := 92

  // ---------- The escaper ----------

  // One lower-case hexadecimal digit, as std::hex prints it.
  function HexDigit(n: int): Byte
    requires 0 <= n < 16
  {
    if n < 10 then 48 + n else 87 + n
  }

  function EscapeByte(c: Byte): seq<Byte> {
    if c == QUOTE then [BACKSLASH, QUOTE]
    else if c == BACKSLASH then [BACKSLASH, BACKSLASH]
    else if c == 8 then [BACKSLASH, 98]
    else if c == 12 then [BACKSLASH, 102]
    else if c == 10 then [BACKSLASH, 110]
    else if c == 13 then [BACKSLASH, 114]
    else if c == 9 then [BACKSLASH, 116]
    else if c <= 31 then [BACKSLASH, 117, 48, 48, HexDigit(c / 16), HexDigit(c % 16)]
    else [c]
  }

  function Escape(s: seq<Byte>): seq<Byte> {
    if s == [] then [] else EscapeByte(s[0]) + Escape(s[1..])
  }

  lemma {:induction false} EscapeConcat(a: seq<Byte>, b: seq<Byte>)
    ensures Escape(a + b) == Escape(a) + Escape(b)
  {
    if a == [] {
      assert a + b == b;
    } else {
      assert (a + b)[1..] == a[1..] + b;
      EscapeConcat(a[1..], b);
    }
  }

  method EscapeJsonStrings(str: seq<Byte>) returns (oss: seq<Byte>)
    ensures oss == Escape(str)
  {
    oss := [];
    for i := 0 to |str|
      invariant oss == Escape(str[..i])
    {
      var c := str[i];
      EscapeConcat(str[..i], [c]);
      assert str[..i + 1] == str[..i] + [c];
      assert Escape([c]) == EscapeByte(c) + Escape([]);
      if c == QUOTE {
        oss := oss + [BACKSLASH, QUOTE];
      } else if c == BACKSLASH {
        oss := oss + [BACKSLASH, BACKSLASH];
      } else if c == 8 {
        oss := oss + [BACKSLASH, 98];
      } else if c == 12 {
        oss := oss + [BACKSLASH, 102];
      } else if c == 10 {
        oss := oss + [BACKSLASH, 110];
      } else if c == 13 {
        oss := oss + [BACKSLASH, 114];
      } else if c == 9 {
        oss := oss + [BACKSLASH, 116];
      } else if c <= 31 {
        oss := oss + [BACKSLASH, 117, 48, 48, HexDigit(c / 16), HexDigit(c % 16)];
      } else {
        oss := oss + [c];
      }
    }
    assert str[..|str|] == str;
  }

  // ---------- The decoder ----------

  // Either case is allowed by the grammar.
  function HexValue(b: Byte): (h: Option<int>)
    ensures h.Some? ==> 0 <= h.value < 16
  {
    if 48 <= b <= 57 then Some(b - 48)
    else if 65 <= b <= 70 then Some(b - 55)
    else if 97 <= b <= 102 then Some(b - 87)
    else None
  }

  // The four hexadecimal digits after "\u".
  function CodeUnit(s: seq<Byte>): (u: Option<int>)
    ensures u.Some? ==> 0 <= u.value < 0x10000
  {
    if |s| < 4 then None else
      match (HexValue(s[0]), HexValue(s[1]), HexValue(s[2]), HexValue(s[3]))
      case (Some(a), Some(b), Some(c), Some(d)) => Some(a * 0x1000 + b * 0x100 + c * 0x10 + d)
      case _ => None
  }

  function Utf8(cp: int): seq<Byte>
    requires 0 <= cp < 0x110000
  {
    if cp < 0x80 then [cp]
    else if cp < 0x800 then [0xc0 + cp / 0x40, 0x80 + cp % 0x40]
    else if cp < 0x10000 then [0xe0 + cp / 0x1000, 0x80 + cp / 0x40 % 0x40, 0x80 + cp % 0x40]
    else [0xf0 + cp / 0x40000, 0x80 + cp / 0x1000 % 0x40, 0x80 + cp / 0x40 % 0x40, 0x80 + cp % 0x40]
  }

  // The character named by one of the two-character escapes.
  function Simple(b: Byte): Option<Byte> {
    if b == QUOTE || b == BACKSLASH || b == SLASH then Some(b)
    else if b == 98 then Some(8)
    else if b == 102 then Some(12)
    else if b == 110 then Some(10)
    else if b == 114 then Some(13)
    else if b == 116 then Some(9)
    else None
  }

  function Prepend(front: seq<Byte>, rest: Option<seq<Byte>>): Option<seq<Byte>> {
    if rest == None then None else Some(front + rest.value)
  }

  // The text between the quotes; None when it is not a JSON string body. A surrogate
  // that is not part of a pair is refused.
  function Decode(t: seq<Byte>): Option<seq<Byte>>
    decreases |t|
  {
    if t == [] then Some([])
    else if t[0] < 0x20 || t[0] == QUOTE then None
    else if t[0] != BACKSLASH then Prepend([t[0]], Decode(t[1..]))
    else if |t| == 1 then None
    else if t[1] != 117 then
      if Simple(t[1]) == None then None else Prepend([Simple(t[1]).value], Decode(t[2..]))
    else
      match CodeUnit(t[2..])
      case None => None
      case Some(u) =>
        if u < 0xd800 || u > 0xdfff then Prepend(Utf8(u), Decode(t[6..]))
        else if u > 0xdbff || |t| < 12 || t[6] != BACKSLASH || t[7] != 117 then None
        else
          match CodeUnit(t[8..])
          case None => None
          case Some(v) =>
            if v < 0xdc00 || v > 0xdfff then None
            else Prepend(Utf8(0x10000 + (u - 0xd800) * 0x400 + (v - 0xdc00)), Decode(t[12..]))
  }

  // ---------- Escaping is invertible ----------

  lemma {:induction false} DecodeControl(c: Byte, t: seq<Byte>)
    requires c <= 31
    ensures Decode([BACKSLASH, 117, 48, 48, HexDigit(c / 16), HexDigit(c % 16)] + t) == Prepend([c], Decode(t))
  {}

  lemma {:induction false} DecodeEscapedByte(c: Byte, t: seq<Byte>)
    ensures Decode(EscapeByte(c) + t) == Prepend([c], Decode(t))
  {
    var s := EscapeByte(c) + t;
    if |EscapeByte(c)| == 1 {
      assert s[1..] == t;
    } else if |EscapeByte(c)| == 2 {
      assert s[2..] == t;
    } else {
      DecodeControl(c, t);
    }
  }

  lemma {:induction false} DecodeUndoesEscape(s: seq<Byte>)
    ensures Decode(Escape(s)) == Some(s)
  {
    if s != [] {
      DecodeUndoesEscape(s[1..]);
      DecodeEscapedByte(s[0], Escape(s[1..]));
      assert [s[0]] + s[1..] == s;
    }
  }

  lemma {:induction false} EscapeInjective(a: seq<Byte>, b: seq<Byte>)
    requires Escape(a) == Escape(b)
    ensures a == b
  {
    DecodeUndoesEscape(a);
    DecodeUndoesEscape(b);
  }

  // No text that decodes to the input is shorter: the two-character escapes are used
  // wherever there is one, and nothing is escaped that need not be.
  lemma {:induction false} EscapeIsShortest(t: seq<Byte>, s: seq<Byte>)
    requires Decode(t) == Some(s)
    ensures |Escape(s)| <= |t|
    decreases |t|
  {
    if t != [] {
      var n := TokenLength(t);
      var front := FirstToken(t);
      var rest := Decode(t[n..]).value;
      EscapeIsShortest(t[n..], rest);
      EscapeConcat(front, rest);
    }
  }

  // How many bytes of the text make up its first character.
  function TokenLength(t: seq<Byte>): nat
    requires t != []
  {
    if t[0] != BACKSLASH then 1
    else if |t| > 1 && t[1] != 117 then 2
    else if |t| >= 6 && CodeUnit(t[2..]).Some? && 0xd800 <= CodeUnit(t[2..]).value <= 0xdfff then 12
    else 6
  }

  lemma {:induction false} FirstToken(t: seq<Byte>) returns (front: seq<Byte>)
    requires t != [] && Decode(t).Some?
    ensures TokenLength(t) <= |t| && Decode(t[TokenLength(t)..]).Some?
    ensures Decode(t).value == front + Decode(t[TokenLength(t)..]).value
    ensures |Escape(front)| <= TokenLength(t)
  {
    if t[0] != BACKSLASH {
      front := [t[0]];
      EscapeOfOne(t[0]);
    } else if t[1] != 117 {
      front := [Simple(t[1]).value];
      EscapeOfOne(front[0]);
    } else {
      var u := CodeUnit(t[2..]).value;
      if u < 0xd800 || u > 0xdfff {
        front := Utf8(u);
        EscapeOfUtf8(u);
      } else {
        var cp := 0x10000 + (u - 0xd800) * 0x400 + (CodeUnit(t[8..]).value - 0xdc00);
        front := Utf8(cp);
        EscapeOfUtf8(cp);
      }
    }
  }

  lemma {:induction false} EscapeOfOne(c: Byte)
    ensures Escape([c]) == EscapeByte(c)
  {
    assert Escape([c]) == EscapeByte(c) + Escape([]);
  }

  lemma {:induction false} EscapeOfHigh(s: seq<Byte>)
    requires forall i :: 0 <= i < |s| ==> s[i] >= 0x80
    ensures Escape(s) == s
  {
    if s != [] {
      EscapeOfHigh(s[1..]);
      assert s == [s[0]] + s[1..];
    }
  }

  lemma {:induction false} EscapeOfUtf8(cp: int)
    requires 0 <= cp < 0x110000
    ensures |Escape(Utf8(cp))| <= if cp < 0x10000 then 6 else 12
  {
    if cp < 0x80 {
      EscapeOfOne(cp);
    } else {
      EscapeOfHigh(Utf8(cp));
    }
  }

  // Control characters without a short escape get four lower-case hexadecimal digits.
  lemma {:induction false} HexIsLowerCase()
    ensures Escape([0x1f]) == [92, 117, 48, 48, 49, 102] && Escape([0]) == [92, 117, 48, 48, 48, 48]
  {
    EscapeOfOne(0x1f);
    EscapeOfOne(0);
  }

  // ---------- The output is safe between quotes ----------

  lemma {:induction false} NoRawControl(s: seq<Byte>)
    ensures forall b :: b in Escape(s) ==> b >= 0x20
  {
    if s != [] {
      NoRawControl(s[1..]);
    }
  }

  // Whether the byte at i is escaped by a backslash that is not itself escaped.
  predicate Escaped(t: seq<Byte>, i: nat)
    requires i <= |t|
  {
    i > 0 && t[i - 1] == BACKSLASH && !Escaped(t, i - 1)
  }

  lemma {:induction false} EscapedInPrefix(a: seq<Byte>, b: seq<Byte>, i: nat)
    requires i <= |a|
    ensures Escaped(a + b, i) == Escaped(a, i)
  {
    if i > 0 {
      EscapedInPrefix(a, b, i - 1);
    }
  }

  // After a complete escape, what follows starts unescaped.
  lemma {:induction false} EscapedInSuffix(a: seq<Byte>, b: seq<Byte>, i: nat)
    requires !Escaped(a, |a|) && i <= |b|
    ensures Escaped(a + b, |a| + i) == Escaped(b, i)
  {
    if i == 0 {
      EscapedInPrefix(a, b, |a|);
    } else {
      EscapedInSuffix(a, b, i - 1);
    }
  }

  lemma {:induction false} EscapeByteIsComplete(c: Byte)
    ensures !Escaped(EscapeByte(c), |EscapeByte(c)|)
    ensures forall i :: 0 <= i < |EscapeByte(c)| && EscapeByte(c)[i] == QUOTE ==> Escaped(EscapeByte(c), i)
  {
    var e := EscapeByte(c);
    assert !Escaped(e, 0);
    assert |e| >= 2 ==> e[0] == BACKSLASH && Escaped(e, 1) && !Escaped(e, 2);
    if |e| == 6 {
      assert forall i :: 2 <= i < 6 ==> e[i] != BACKSLASH && e[i] != QUOTE;
      assert !Escaped(e, 6);
    }
  }

  // Every quote in the output is escaped, and a quote written right after the output
  // is not: the string token ends exactly there.
  lemma {:induction false} QuotesAreEscaped(s: seq<Byte>)
    ensures forall i :: 0 <= i < |Escape(s)| && Escape(s)[i] == QUOTE ==> Escaped(Escape(s), i)
    ensures !Escaped(Escape(s), |Escape(s)|)
  {
    if s != [] {
      var e, rest := EscapeByte(s[0]), Escape(s[1..]);
      QuotesAreEscaped(s[1..]);
      EscapeByteIsComplete(s[0]);
      forall i | 0 <= i < |e + rest| && (e + rest)[i] == QUOTE
        ensures Escaped(e + rest, i)
      {
        if i < |e| {
          EscapedInPrefix(e, rest, i);
        } else {
          EscapedInSuffix(e, rest, i - |e|);
        }
      }
      EscapedInSuffix(e, rest, |rest|);
    }
  }

  lemma {:induction false} TokenEndsAtClosingQuote(s: seq<Byte>)
    ensures var t := Escape(s) + [QUOTE];
            forall i :: 0 <= i < |t| && t[i] == QUOTE && !Escaped(t, i) <==> i == |Escape(s)|
  {
    var e := Escape(s);
    QuotesAreEscaped(s);
    forall i | 0 <= i <= |e|
      ensures Escaped(e + [QUOTE], i) == Escaped(e, i)
    {
      EscapedInPrefix(e, [QUOTE], i);
    }
  }
}
