/** JavaScript strings as sequences of UTF-16 code units, and the few string built-ins the sources call. */
module Prelude {

  datatype Option<+T> = None | Some(value: T)

  /** A UTF-16 code unit. Dafny's own char leaves out the surrogates, which JavaScript strings may hold. */
  type CodeUnit = c: nat | c < 0x10000

  type JsString = seq<CodeUnit>

  /** `s.indexOf(c, from)` for a single code unit: the first position at or after `from`, or -1. */
  function IndexOf(s: JsString, c: CodeUnit, from: nat): (k: int)
    ensures k == -1 || (from <= k < |s| && s[k] == c)
    decreases |s| - from
  {
    if from >= |s| then -1
    else if s[from] == c then from
    else IndexOf(s, c, from + 1)
  }

  /** No unit of s from position i up to j is c. */
  ghost predicate Absent(s: JsString, c: CodeUnit, i: nat, j: nat)
    requires j <= |s|
  {
    forall k :: i <= k < j ==> s[k] != c
  }

  /** IndexOf finds the first occurrence, or there is none. */
  lemma {:induction false} IndexOfFirst(s: JsString, c: CodeUnit, from: nat)
    ensures var k := IndexOf(s, c, from); Absent(s, c, from, if k == -1 then |s| else k)
    decreases |s| - from
  {
    if from < |s| && s[from] != c {
      IndexOfFirst(s, c, from + 1);
    }
  }

  /** The position where c first occurs is the one IndexOf returns. */
  lemma {:induction false} IndexOfIs(s: JsString, c: CodeUnit, from: nat, k: nat)
    requires from <= k < |s| && s[k] == c && Absent(s, c, from, k)
    ensures IndexOf(s, c, from) == k
    decreases k - from
  {
    if from < k {
      IndexOfIs(s, c, from + 1, k);
    }
  }

  lemma {:induction false} IndexOfNone(s: JsString, c: CodeUnit, from: nat)
    requires Absent(s, c, from, |s|)
    ensures IndexOf(s, c, from) == -1
    decreases |s| - from
  {
    if from < |s| {
      IndexOfNone(s, c, from + 1);
    }
  }

  /** `s.lastIndexOf(c, from)`: the last position at or before `from`, or -1. */
  function LastIndexOf(s: JsString, c: CodeUnit, from: int): (k: int)
    requires from < |s|
    ensures k == -1 || (0 <= k <= from && s[k] == c)
  {
    if from < 0 then -1
    else if s[from] == c then from
    else LastIndexOf(s, c, from - 1)
  }

  /** An occurrence at or before `from` is not missed. */
  lemma {:induction false} LastIndexOfAtLeast(s: JsString, c: CodeUnit, from: int, j: nat)
    requires j <= from < |s| && s[j] == c
    ensures LastIndexOf(s, c, from) >= j
  {
    if s[from] != c {
      LastIndexOfAtLeast(s, c, from - 1, j);
    }
  }

  /** `s.slice(from, to)` for non-negative bounds: empty when the bounds cross. */
  function Slice(s: JsString, from: nat, to: nat): JsString
    requires to <= |s|
  {
    if from <= to then s[from..to] else []
  }
}
