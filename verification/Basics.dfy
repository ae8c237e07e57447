/** What several modules need: options, powers of two, searching a string, and sequences with one element
    more or less. */
module Basics {
  datatype Option<+T> = None | Some(value: T)

  const LONG_MAX := 0x7FFF_FFFF_FFFF_FFFF

  /** The range of a signed 64-bit number. */
  predicate Long(n: int) {
    -LONG_MAX - 1 <= n <= LONG_MAX
  }

  function Pow2(n: nat): (p: int)
    ensures p > 0
  {
    if n == 0 then 1 else 2 * Pow2(n - 1)
  }

  lemma DivUnique(a: int, b: int, q: int, r: int)
    requires b > 0 && a == b * q + r && 0 <= r < b
    ensures a / b == q && a % b == r
  {
    var d := a / b - q;
    assert a == b * (a / b) + a % b;
    assert b * d == r - a % b by {
      assert b * d == b * (a / b) - b * q;
    }
  }

  function Min(a: nat, b: nat): nat {
    if a < b then a else b
  }

  predicate IsDigit(c: char) {
    '0' <= c <= '9'
  }

  function IndexOf(s: string, c: char, from: nat): (i: int)
    ensures i == -1 || from <= i < |s|
    decreases |s| - from
  {
    if from >= |s| then -1 else if s[from] == c then from else IndexOf(s, c, from + 1)
  }

  lemma {:induction false} IndexOfAt(s: string, c: char, from: nat, i: nat)
    requires from <= i <= |s| && (forall j :: from <= j < i ==> s[j] != c)
    ensures i < |s| && s[i] == c ==> IndexOf(s, c, from) == i
    ensures i == |s| ==> IndexOf(s, c, from) == -1
    decreases i - from
  {
    if from < i {
      IndexOfAt(s, c, from + 1, i);
    }
  }

  predicate Distinct<T(==)>(s: seq<T>) {
    forall i, j :: 0 <= i < j < |s| ==> s[i] != s[j]
  }

  function SetOf<T(==)>(s: seq<T>): set<T> {
    set x | x in s
  }

  lemma Assoc<T>(a: seq<T>, b: seq<T>, c: seq<T>)
    ensures (a + b) + c == a + (b + c)
  {
  }

  function RemovedAt<T>(s: seq<T>, k: nat): seq<T>
    requires k < |s|
  {
    s[..k] + s[k + 1..]
  }

  function InsertedAt<T>(s: seq<T>, k: nat, x: T): seq<T>
    requires k <= |s|
  {
    s[..k] + [x] + s[k..]
  }

  /** `s'` is `s` with one more element `x`; everything else keeps its place in the order. */
  ghost predicate OneInserted<T>(s: seq<T>, x: T, s': seq<T>) {
    exists k: nat :: k <= |s| && s' == InsertedAt(s, k, x)
  }

  lemma MiddleInserted<T>(a: seq<T>, x: T, b: seq<T>)
    ensures OneInserted(a + b, x, a + [x] + b)
  {
    assert a + [x] + b == InsertedAt(a + b, |a|, x);
  }

  /** `s'` is `s` without one occurrence of `x`; everything else keeps its place in the order. */
  ghost predicate OneRemoved<T>(s: seq<T>, x: T, s': seq<T>) {
    exists k: nat :: k < |s| && s[k] == x && s' == RemovedAt(s, k)
  }
}
