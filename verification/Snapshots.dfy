/** Stale snapshots: the sequence numbers of the published entries, over every history of a cache from
    its opening on. */
module Snapshots {
  import opened Basics

  datatype Change = Published(key: string) | Gone(key: string)

  /** The numbers of the entries that can be read, and the next one to give. */
  datatype Numbers = Numbers(of: map<string, int>, next: int)

  function Step(s: Numbers, change: Change): Numbers {
    match change
    case Published(k) => Numbers(s.of[k := s.next], s.next + 1)
    case Gone(k) => s.(of := s.of - {k})
  }

  /** Entries go, in any order. */
  function AllGone(s: Numbers, keys: set<string>): Numbers {
    s.(of := s.of - keys)
  }

  lemma GoneMore(s: Numbers, keys: set<string>, key: string)
    ensures AllGone(s, keys + {key}) == Step(AllGone(s, keys), Gone(key)) && AllGone(s, {}) == s
  {
  }

  /** After the first `n` changes; the entries of the journal start with number 0, and so does the count. */
  function After(loaded: set<string>, changes: seq<Change>, n: nat): Numbers
    requires n <= |changes|
  {
    if n == 0 then Numbers(map k | k in loaded :: 0, 0) else Step(After(loaded, changes, n - 1), changes[n - 1])
  }

  /** The number of publications. */
  function Count(changes: seq<Change>, n: nat): (c: nat)
    requires n <= |changes|
  {
    if n == 0 then 0 else Count(changes, n - 1) + if changes[n - 1].Published? then 1 else 0
  }

  /** The last publication of the key among the first `n` changes. */
  function LastOf(changes: seq<Change>, key: string, n: nat): (m: Option<nat>)
    requires n <= |changes|
    ensures m.Some? ==> m.value < n && changes[m.value] == Published(key)
    ensures forall i :: (if m.Some? then m.value + 1 else 0) <= i < n ==> changes[i] != Published(key)
  {
    if n == 0 then None else if changes[n - 1] == Published(key) then Some(n - 1) else LastOf(changes, key, n - 1)
  }

  lemma {:induction false} CountMore(changes: seq<Change>, m: nat, n: nat)
    requires m <= n <= |changes|
    ensures Count(changes, m) <= Count(changes, n)
    ensures m < n && changes[m].Published? ==> Count(changes, m) < Count(changes, n)
  {
    if m < n {
      CountMore(changes, m, n - 1);
    }
  }

  /** What the number of an entry says. */
  lemma {:induction false} NumberIs(loaded: set<string>, changes: seq<Change>, key: string, n: nat)
    requires n <= |changes|
    ensures After(loaded, changes, n).next == Count(changes, n)
    ensures key in After(loaded, changes, n).of ==>
      After(loaded, changes, n).of[key] == match LastOf(changes, key, n) case None => 0 case Some(m) => Count(changes, m)
  {
    if n > 0 {
      NumberIs(loaded, changes, key, n - 1);
    }
  }

  predicate ChangedBetween(changes: seq<Change>, key: string, i: nat, j: nat)
    requires i <= j <= |changes|
  {
    exists m :: i <= m < j && changes[m] == Published(key)
  }

  /** A snapshot taken after `i` changes is found to be stale after `j`, if and only if its entry was
      published in between, and something else before the last of these publications. */
  lemma StaleExactly(loaded: set<string>, changes: seq<Change>, key: string, i: nat, j: nat)
    requires i <= j <= |changes| && key in After(loaded, changes, i).of && key in After(loaded, changes, j).of
    ensures After(loaded, changes, j).of[key] != After(loaded, changes, i).of[key] <==>
      exists m :: i <= m < j && LastOf(changes, key, j) == Some(m) && Count(changes, m) > 0
  {
    NumberIs(loaded, changes, key, i);
    NumberIs(loaded, changes, key, j);
    LastBetween(changes, key, i, j);
    var before, last := LastOf(changes, key, i), LastOf(changes, key, j);
    if last.Some? && last.value >= i && before.Some? {
      CountMore(changes, before.value, last.value);
    }
  }

  lemma {:induction false} LastBetween(changes: seq<Change>, key: string, i: nat, j: nat)
    requires i <= j <= |changes|
    ensures ChangedBetween(changes, key, i, j) <==> LastOf(changes, key, j).Some? && LastOf(changes, key, j).value >= i
    ensures !ChangedBetween(changes, key, i, j) ==> LastOf(changes, key, j) == LastOf(changes, key, i)
  {
    if i < j {
      LastBetween(changes, key, i, j - 1);
    }
  }

  /** So the promise is kept, for every entry and every later moment, if and only if something was
      published before the snapshot was taken. */
  lemma StaleRight(loaded: set<string>, changes: seq<Change>, key: string, i: nat)
    requires i <= |changes| && key in After(loaded, changes, i).of
    ensures (forall later, j :: i <= j <= |changes[..i] + later| ==> Detected(loaded, changes[..i] + later, key, i, j)) <==> Count(changes, i) > 0
  {
    if Count(changes, i) > 0 {
      forall later, j | i <= j <= |changes[..i] + later|
        ensures Detected(loaded, changes[..i] + later, key, i, j)
      {
        AlwaysDetected(loaded, changes, later, key, i, j);
      }
    } else {
      NeverDetected(loaded, changes, key, i);
    }
  }

  /** A snapshot of moment `i` is stale at moment `j` exactly if the entry has changed. */
  predicate Detected(loaded: set<string>, changes: seq<Change>, key: string, i: nat, j: nat)
    requires i <= j <= |changes|
  {
    var s, s' := After(loaded, changes, i), After(loaded, changes, j);
    key in s.of && key in s'.of ==> (s.of[key] != s'.of[key] <==> ChangedBetween(changes, key, i, j))
  }

  lemma {:induction false} SamePast(loaded: set<string>, changes: seq<Change>, later: seq<Change>, i: nat, n: nat)
    requires n <= i <= |changes|
    ensures After(loaded, changes[..i] + later, n) == After(loaded, changes, n) && Count(changes[..i] + later, n) == Count(changes, n)
  {
    if n > 0 {
      SamePast(loaded, changes, later, i, n - 1);
    }
  }

  lemma AlwaysDetected(loaded: set<string>, changes: seq<Change>, later: seq<Change>, key: string, i: nat, j: nat)
    requires i <= |changes| && Count(changes, i) > 0 && i <= j <= |changes[..i] + later|
    ensures Detected(loaded, changes[..i] + later, key, i, j)
  {
    var all := changes[..i] + later;
    SamePast(loaded, changes, later, i, i);
    LastBetween(all, key, i, j);
    if key in After(loaded, all, i).of && key in After(loaded, all, j).of {
      StaleExactly(loaded, all, key, i, j);
      if ChangedBetween(all, key, i, j) {
        CountMore(all, i, LastOf(all, key, j).value);
      }
    }
  }

  /** If nothing was published before, publishing the entry once goes unnoticed. */
  lemma NeverDetected(loaded: set<string>, changes: seq<Change>, key: string, i: nat)
    requires i <= |changes| && key in After(loaded, changes, i).of && Count(changes, i) == 0
    ensures !Detected(loaded, changes[..i] + [Published(key)], key, i, i + 1)
  {
    var all := changes[..i] + [Published(key)];
    SamePast(loaded, changes, [Published(key)], i, i);
    NumberIs(loaded, all, key, i);
    NumberIs(loaded, all, key, i + 1);
    LastBetween(all, key, i, i + 1);
    if LastOf(all, key, i).Some? {
      CountMore(all, LastOf(all, key, i).value, i);
    }
    assert all[i] == Published(key);
  }
}
