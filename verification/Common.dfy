// Small shared vocabulary.
module Common {
  datatype Option<+T> = None | Some(value: T) {
    function GetOr(default: T): T {
      match this
      case None => default
      case Some(v) => v
    }
  }

  type Byte = x: int | 0 <= x < 256

  const INT64_MAX: int := 0x7fff_ffff_ffff_ffff
  const UINT64_MAX: int := 0xffff_ffff_ffff_ffff

  // The id that stands for "no such workspace".
  const WORKSPACE_INVALID: int := -1

  ghost predicate Distinct(s: seq<int>) {
    forall i, j :: 0 <= i < j < |s| ==> s[i] != s[j]
  }

  function Max(a: int, b: int): int {
    if a < b then b else a
  }

  lemma {:induction false} HasElement(s: set<int>)
    ensures s != {} ==> exists x :: x in s
  {
    assert (forall x :: x !in s) ==> s == {};
  }

  lemma {:induction false} Regroup<T>(a: seq<T>, b: seq<T>, c: seq<T>)
    ensures a + (b + c) == a + b + c
  {}

  lemma {:induction false} RegroupTail<T>(a: seq<T>, b: seq<T>, c: seq<T>, d: seq<T>, e: seq<T>)
    ensures a + b + c + d + e == a + b + (c + d + e)
  {}

  lemma {:induction false} Middle<T>(a: seq<T>, b: seq<T>, c: seq<T>)
    ensures (a + b + c)[|a|..|a| + |b|] == b
    ensures (a + b + c)[|a| + |b|..] == c
  {}
}
