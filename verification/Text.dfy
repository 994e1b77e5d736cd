// Text helpers shared by the parsers: whitespace, digits, decimal numbers.
module Text {
  // ---------- Whitespace ----------

  // std::isspace in the C locale.
  predicate IsSpace(c: char) {
    c == ' ' || 9 <= c as int <= 13
  }

  ghost predicate AllSpace(s: string) {
    forall c :: c in s ==> IsSpace(c)
  }

  function TrimLeft(s: string): string {
    if s != [] && IsSpace(s[0]) then TrimLeft(s[1..]) else s
  }

  function TrimRight(s: string): string {
    if s != [] && IsSpace(s[|s| - 1]) then TrimRight(s[..|s| - 1]) else s
  }

  function Trim(s: string): string {
    TrimRight(TrimLeft(s))
  }

  lemma {:induction false} TrimLeftDrops(space: string, s: string)
    requires AllSpace(space)
    ensures TrimLeft(space + s) == TrimLeft(s)
  {
    if space == [] {
      assert space + s == s;
    } else {
      assert (space + s)[1..] == space[1..] + s;
      TrimLeftDrops(space[1..], s);
    }
  }

  lemma {:induction false} TrimRightDrops(s: string, space: string)
    requires AllSpace(space)
    ensures TrimRight(s + space) == TrimRight(s)
  {
    if space == [] {
      assert s + space == s;
    } else {
      assert (s + space)[..|s + space| - 1] == s + space[..|space| - 1];
      TrimRightDrops(s, space[..|space| - 1]);
    }
  }

  // Trimming removes exactly the whitespace around a text that starts and ends
  // with something else.
  lemma {:induction false} TrimCore(lead: string, core: string, tail: string)
    requires AllSpace(lead) && AllSpace(tail)
    requires core != [] ==> !IsSpace(core[0]) && !IsSpace(core[|core| - 1])
    ensures Trim(lead + core + tail) == core
  {
    assert lead + core + tail == lead + (core + tail);
    TrimLeftDrops(lead, core + tail);
    if core == [] {
      assert core + tail == tail + [];
      TrimLeftDrops(tail, []);
    } else {
      TrimRightDrops(core, tail);
    }
  }

  // ---------- Searching ----------

  // The index of the first `c`, or |s|.
  function FirstOf(s: string, c: char): (i: nat)
    ensures i <= |s| && c !in s[..i]
    ensures i < |s| ==> s[i] == c
  {
    if s == [] || s[0] == c then 0 else
      var i := 1 + FirstOf(s[1..], c);
      assert s[..i] == [s[0]] + s[1..][..i - 1];
      i
  }

  lemma {:induction false} FirstOfPrefix(a: string, c: char, b: string)
    requires c !in a
    ensures FirstOf(a + [c] + b, c) == |a|
  {
    if a != [] {
      assert (a + [c] + b)[1..] == a[1..] + [c] + b;
      FirstOfPrefix(a[1..], c, b);
    }
  }

  // ---------- Numbers ----------

  predicate IsDigit(c: char) {
    '0' <= c <= '9'
  }

  ghost predicate AllDigits(s: string) {
    forall c :: c in s ==> IsDigit(c)
  }

  // Hyprutils' isNumber for integers: digits, possibly after one '-'.
  predicate IsNumber(s: string) {
    s != [] && IsDigit(s[|s| - 1]) && forall i :: 0 <= i < |s| ==> IsDigit(s[i]) || (i == 0 && s[i] == '-')
  }

  function DigitValue(c: char): nat
    requires IsDigit(c)
  {
    c as int - '0' as int
  }

  function DigitOf(n: nat): (c: char)
    requires n < 10
    ensures IsDigit(c) && DigitValue(c) == n
  {
    ('0' as int + n) as char
  }

  function Decimal(n: nat): (s: string)
    ensures s != [] && AllDigits(s)
  {
    if n < 10 then [DigitOf(n)] else Decimal(n / 10) + [DigitOf(n % 10)]
  }

  function DigitsValue(s: string): int
    requires AllDigits(s)
  {
    if s == [] then 0 else
      DigitsValue(s[..|s| - 1]) * 10 + DigitValue(s[|s| - 1])
  }

  lemma {:induction false} DecimalValue(n: nat)
    ensures DigitsValue(Decimal(n)) == n
  {
    var s := Decimal(n);
    if n >= 10 {
      DecimalValue(n / 10);
      assert s[..|s| - 1] == Decimal(n / 10);
    } else {
      assert s[..|s| - 1] == [];
    }
  }

  // The value of a text accepted by IsNumber.
  function NumberValue(s: string): int
    requires IsNumber(s)
  {
    if s[0] == '-' then
      assert forall i :: 0 < i < |s| ==> IsDigit(s[i]);
      0 - DigitsValue(s[1..])
    else
      assert forall i :: 0 <= i < |s| ==> IsDigit(s[i]);
      DigitsValue(s)
  }

  lemma {:induction false} DecimalIsNumber(n: nat)
    ensures IsNumber(Decimal(n)) && NumberValue(Decimal(n)) == n
    ensures '-' !in Decimal(n)
  {
    DecimalValue(n);
    var s := Decimal(n);
    assert forall i :: 0 <= i < |s| ==> s[i] in s;
  }
}
