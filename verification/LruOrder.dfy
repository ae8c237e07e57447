/** The access order of the entries, their total size, and which of them trimming evicts. */
module LruOrder {
  import opened Basics
  import opened JournalText
  import opened Journal

  function Sum(ls: seq<int>): int {
    if ls == [] then 0 else ls[0] + Sum(ls[1..])
  }

  function Bytes(m: Slots, key: string): int {
    if key in m then Sum(m[key].lengths) else 0
  }

  function Total(order: seq<string>, m: Slots): int {
    if order == [] then 0 else Bytes(m, order[0]) + Total(order[1..], m)
  }

  function Without(order: seq<string>, key: string): seq<string> {
    if order == [] then []
    else if order[0] == key then Without(order[1..], key)
    else [order[0]] + Without(order[1..], key)
  }

  /** A lookup in the access-ordered map moves the key to the end. */
  function Touch(order: seq<string>, key: string): seq<string> {
    Without(order, key) + [key]
  }

  /** The effect of one journal line on the access order of a cache that reads it. */
  function OrderStep(order: seq<string>, r: Record): seq<string> {
    if r.Remove? then Without(order, r.key) else Touch(order, r.key)
  }

  function ReplayOrder(log: seq<Record>): seq<string> {
    if log == [] then [] else OrderStep(ReplayOrder(log[..|log| - 1]), log[|log| - 1])
  }

  lemma ReplayOrderStep(log: seq<Record>, r: Record)
    ensures ReplayOrder(log + [r]) == OrderStep(ReplayOrder(log), r)
  {
    assert (log + [r])[..|log|] == log;
  }

  lemma {:induction false} WithoutMembers(order: seq<string>, key: string)
    ensures forall k :: k in Without(order, key) <==> k in order && k != key
    ensures Distinct(order) ==> Distinct(Without(order, key))
    ensures key !in order ==> Without(order, key) == order
  {
    if order != [] {
      WithoutMembers(order[1..], key);
      if Distinct(order) {
        assert order[0] !in order[1..];
      }
    }
  }

  /** A touched key moves behind all others, which keep their order. */
  lemma TouchExactly(a: seq<string>, b: seq<string>, key: string)
    requires key !in a && key !in b
    ensures Touch(a + [key] + b, key) == a + b + [key] && Without(a + [key] + b, key) == a + b
    ensures Touch(a + b, key) == a + b + [key]
  {
    WithoutMembers(a + b, key);
    WithoutOne(a, b, key);
  }

  lemma {:induction false} WithoutOne(a: seq<string>, b: seq<string>, key: string)
    requires key !in a && key !in b
    ensures Without(a + [key] + b, key) == a + b
  {
    if a == [] {
      WithoutMembers(b, key);
      assert ([] + [key] + b)[1..] == b && [] + b == b;
    } else {
      WithoutOne(a[1..], b, key);
      assert (a + [key] + b)[1..] == a[1..] + [key] + b;
    }
  }

  // ----- how recently a key was used -----

  /** The last record of the key; -1 if there is none. */
  function LastUse(log: seq<Record>, key: string): (i: int)
    ensures -1 <= i < |log| && (i >= 0 ==> log[i].key == key) && forall j :: i < j < |log| ==> log[j].key != key
  {
    if log == [] then -1 else if log[|log| - 1].key == key then |log| - 1 else
      var i := LastUse(log[..|log| - 1], key);
      assert forall j :: 0 <= j < |log| - 1 ==> log[..|log| - 1][j] == log[j];
      i
  }

  ghost predicate LeastRecentFirst(log: seq<Record>, order: seq<string>) {
    forall i, j :: 0 <= i < j < |order| ==> LastUse(log, order[i]) < LastUse(log, order[j])
  }

  /** The access order after reading a journal: the keys whose last record is not a removal, from the one
      used least recently to the one used last. */
  lemma {:induction false} ReplayOrderRecent(log: seq<Record>)
    ensures forall k :: k in ReplayOrder(log) <==> LastUse(log, k) >= 0 && !log[LastUse(log, k)].Remove?
    ensures LeastRecentFirst(log, ReplayOrder(log))
  {
    if log != [] {
      var n := |log| - 1;
      var front, key := log[..n], log[n].key;
      ReplayOrderRecent(front);
      assert log == front + [log[n]];
      ReplayOrderStep(front, log[n]);
      WithoutMembers(ReplayOrder(front), key);
      WithoutRecent(ReplayOrder(front), key, front);
      UsedNow(log, Without(ReplayOrder(front), key));
      forall k
        ensures LastUse(log, k) == if k == key then n else LastUse(front, k)
      {
      }
    }
  }

  /** The last record puts its key behind all others. */
  lemma UsedNow(log: seq<Record>, rest: seq<string>)
    requires log != [] && log[|log| - 1].key !in rest && LeastRecentFirst(log[..|log| - 1], rest)
    ensures LeastRecentFirst(log, rest) && LeastRecentFirst(log, rest + [log[|log| - 1].key])
  {
    var front := log[..|log| - 1];
    forall i | 0 <= i < |rest|
      ensures LastUse(log, rest[i]) == LastUse(front, rest[i]) < |log| - 1
    {
      assert rest[i] in rest;
    }
  }

  lemma {:induction false} WithoutRecent(order: seq<string>, key: string, log: seq<Record>)
    requires LeastRecentFirst(log, order)
    ensures LeastRecentFirst(log, Without(order, key))
  {
    hide LastUse;
    if order != [] {
      WithoutRecent(order[1..], key, log);
      WithoutMembers(order[1..], key);
      forall k | k in order[1..]
        ensures LastUse(log, order[0]) < LastUse(log, k)
      {
      }
      OlderFirst(log, order[0], Without(order[1..], key));
    }
  }

  lemma OlderFirst(log: seq<Record>, key: string, rest: seq<string>)
    requires LeastRecentFirst(log, rest) && forall k :: k in rest ==> LastUse(log, key) < LastUse(log, k)
    ensures LeastRecentFirst(log, [key] + rest)
  {
  }

  lemma {:induction false} TotalWithout(order: seq<string>, key: string, m: Slots)
    requires Distinct(order) && key in order
    ensures Total(order, m) == Total(Without(order, key), m) + Bytes(m, key)
  {
    if order[0] == key {
      assert key !in order[1..];
      WithoutMembers(order[1..], key);
    } else {
      TotalWithout(order[1..], key, m);
      assert ([order[0]] + Without(order[1..], key))[1..] == Without(order[1..], key);
    }
  }

  lemma {:induction false} TotalConcat(a: seq<string>, b: seq<string>, m: Slots)
    ensures Total(a + b, m) == Total(a, m) + Total(b, m)
  {
    if a == [] {
      assert a + b == b;
    } else {
      TotalConcat(a[1..], b, m);
      assert (a + b)[1..] == a[1..] + b;
    }
  }

  lemma TotalTouch(order: seq<string>, key: string, m: Slots)
    requires Distinct(order) && key in order
    ensures Total(Touch(order, key), m) == Total(order, m)
  {
    TotalWithout(order, key, m);
    TotalConcat(Without(order, key), [key], m);
  }

  lemma {:induction false} TotalSame(order: seq<string>, m: Slots, m': Slots)
    requires forall k :: k in order ==> Bytes(m, k) == Bytes(m', k)
    ensures Total(order, m) == Total(order, m')
  {
    if order != [] {
      TotalSame(order[1..], m, m');
    }
  }

  /** Changing one entry's lengths changes the total by the difference. */
  lemma TotalChanged(order: seq<string>, key: string, m: Slots, m': Slots)
    requires Distinct(order) && key in order && forall k :: k in order && k != key ==> Bytes(m, k) == Bytes(m', k)
    ensures Total(order, m') == Total(order, m) - Bytes(m, key) + Bytes(m', key)
  {
    TotalWithout(order, key, m);
    TotalWithout(order, key, m');
    WithoutMembers(order, key);
    TotalSame(Without(order, key), m, m');
  }

  predicate NonNegative(m: Slots) {
    forall k :: k in m ==> forall i :: 0 <= i < |m[k].lengths| ==> m[k].lengths[i] >= 0
  }

  lemma {:induction false} SumNonNegative(ls: seq<int>)
    requires forall i :: 0 <= i < |ls| ==> ls[i] >= 0
    ensures Sum(ls) >= 0
  {
    if ls != [] {
      SumNonNegative(ls[1..]);
    }
  }

  lemma {:induction false} TotalNonNegative(order: seq<string>, m: Slots)
    requires NonNegative(m)
    ensures Total(order, m) >= 0
  {
    if order != [] {
      if order[0] in m {
        SumNonNegative(m[order[0]].lengths);
      }
      TotalNonNegative(order[1..], m);
    }
  }

  // ----- eviction -----

  predicate UnderEdit(m: Slots, key: string) {
    key in m && m[key].editing
  }

  function Edited(order: seq<string>, m: Slots): seq<string> {
    if order == [] then []
    else var n := |order| - 1;
      if UnderEdit(m, order[n]) then Edited(order[..n], m) + [order[n]] else Edited(order[..n], m)
  }

  function Unedited(order: seq<string>, m: Slots): seq<string> {
    if order == [] then []
    else var n := |order| - 1;
      if UnderEdit(m, order[n]) then Unedited(order[..n], m) else Unedited(order[..n], m) + [order[n]]
  }

  /** `n` is the length of the shortest prefix of `keys` that frees at least `excess` bytes. */
  predicate ShortestPrefix(keys: seq<string>, m: Slots, excess: int, n: nat) {
    n <= |keys| && Total(keys[..n], m) >= excess && forall j :: 0 <= j < n ==> Total(keys[..j], m) < excess
  }

  lemma {:induction false} EditedMembers(order: seq<string>, m: Slots)
    ensures forall k :: k in Edited(order, m) <==> k in order && UnderEdit(m, k)
    ensures forall k :: k in Unedited(order, m) <==> k in order && !UnderEdit(m, k)
  {
    if order != [] {
      EditedMembers(order[..|order| - 1], m);
      assert order == order[..|order| - 1] + [order[|order| - 1]];
    }
  }

  lemma {:induction false} TotalSplit(order: seq<string>, m: Slots)
    ensures Total(order, m) == Total(Edited(order, m), m) + Total(Unedited(order, m), m)
  {
    if order != [] {
      var n := |order| - 1;
      TotalSplit(order[..n], m);
      TotalConcat(order[..n], [order[n]], m);
      assert order == order[..n] + [order[n]];
      TotalConcat(Edited(order[..n], m), [order[n]], m);
      TotalConcat(Unedited(order[..n], m), [order[n]], m);
    }
  }

  lemma {:induction false} UneditedPrefix(order: seq<string>, m: Slots, i: nat)
    requires i <= |order|
    ensures var u := Unedited(order[..i], m); |u| <= |Unedited(order, m)| && u == Unedited(order, m)[..|u|]
    decreases |order| - i
  {
    if i == |order| {
      assert order[..i] == order;
    } else {
      UneditedPrefix(order, m, i + 1);
      assert order[..i + 1][..i] == order[..i];
      var u, v := Unedited(order[..i], m), Unedited(order[..i + 1], m);
      assert v[..|u|] == u;
    }
  }

  // ----- when trimming ends -----

  /** One round of the loop in trimToSize: the eldest entry goes, or moves to the end if it is edited. */
  function Round(order: seq<string>, m: Slots): (seq<string>, Slots) {
    if order == [] then (order, m)
    else if UnderEdit(m, order[0]) then (Touch(order, order[0]), m)
    else (Without(order, order[0]), m - {order[0]})
  }

  function Rounds(order: seq<string>, m: Slots, n: nat): (seq<string>, Slots) {
    if n == 0 then (order, m) else var (o, s) := Rounds(order, m, n - 1); Round(o, s)
  }

  /** The size of the cache after `n` rounds. */
  function SizeAfter(order: seq<string>, m: Slots, n: nat): int {
    var (o, s) := Rounds(order, m, n);
    Total(o, s)
  }

  lemma RoundStep(k: string, a: seq<string>, m: Slots)
    requires k !in a
    ensures Round([k] + a, m) == if UnderEdit(m, k) then (a + [k], m) else (a, m - {k})
  {
    WithoutMembers(a, k);
    assert ([k] + a)[1..] == a;
  }

  lemma TakeStep(order: seq<string>, m: Slots, i: nat)
    requires 0 < i <= |order|
    ensures var k := order[i - 1];
      && order[i - 1..] == [k] + order[i..]
      && Edited(order[..i], m) == (if UnderEdit(m, k) then Edited(order[..i - 1], m) + [k] else Edited(order[..i - 1], m))
      && Unedited(order[..i], m) == (if UnderEdit(m, k) then Unedited(order[..i - 1], m) else Unedited(order[..i - 1], m) + [k])
  {
    assert order[..i][..i - 1] == order[..i - 1];
  }

  /** The state of the loop before it comes round to an entry for the second time. */
  lemma {:induction false} RoundsAt(order: seq<string>, m: Slots, i: nat)
    requires Distinct(order) && i <= |order| && forall k :: k in order ==> k in m
    ensures Rounds(order, m, i) == (order[i..] + Edited(order[..i], m), m - SetOf(Unedited(order[..i], m)))
  {
    if i == 0 {
      assert order[0..] + Edited(order[..0], m) == order;
      assert m - SetOf(Unedited(order[..0], m)) == m;
    } else {
      RoundsAt(order, m, i - 1);
      TakeStep(order, m, i);
      var k, e, u := order[i - 1], Edited(order[..i - 1], m), Unedited(order[..i - 1], m);
      EditedMembers(order[..i - 1], m);
      var s := m - SetOf(u);
      assert UnderEdit(s, k) <==> UnderEdit(m, k);
      Assoc([k], order[i..], e);
      Assoc(order[i..], e, [k]);
      assert k !in order[i..] + e;
      RoundStep(k, order[i..] + e, s);
      RoundMap(m, u, k);
    }
  }

  lemma RoundMap(m: Slots, u: seq<string>, k: string)
    ensures m - SetOf(u + [k]) == (m - SetOf(u)) - {k}
  {
    assert SetOf(u + [k]) == SetOf(u) + {k};
  }

  /** What has gone after `i` rounds of the first pass. */
  lemma SizeAt(order: seq<string>, m: Slots, i: nat)
    requires Distinct(order) && i <= |order| && forall k :: k in order ==> k in m
    ensures SizeAfter(order, m, i) == Total(order, m) - Total(Unedited(order[..i], m), m)
  {
    var o, s := order[i..] + Edited(order[..i], m), m - SetOf(Unedited(order[..i], m));
    RoundsAt(order, m, i);
    EditedMembers(order[..i], m);
    assert order == order[..i] + order[i..];
    forall k | k in o
      ensures Bytes(s, k) == Bytes(m, k)
    {
      if k in order[i..] {
        LaterKey(order, i, k);
      }
    }
    TotalSame(o, s, m);
    TotalConcat(order[i..], Edited(order[..i], m), m);
    TotalConcat(order[..i], order[i..], m);
    TotalSplit(order[..i], m);
  }

  lemma LaterKey(order: seq<string>, i: nat, k: string)
    requires Distinct(order) && i <= |order| && k in order[i..]
    ensures k !in order[..i]
  {
  }

  lemma {:induction false} EditedConcat(a: seq<string>, b: seq<string>, m: Slots)
    ensures Edited(a + b, m) == Edited(a, m) + Edited(b, m)
    decreases |b|
  {
    if b == [] {
      assert a + b == a;
    } else {
      var n := |b| - 1;
      EditedConcat(a, b[..n], m);
      assert (a + b)[..|a + b| - 1] == a + b[..n];
    }
  }

  lemma {:induction false} EditedSame(o: seq<string>, s: Slots, s': Slots)
    requires forall k :: k in o ==> UnderEdit(s, k) == UnderEdit(s', k)
    ensures Edited(o, s) == Edited(o, s')
  {
    if o != [] {
      EditedSame(o[..|o| - 1], s, s');
    }
  }

  lemma RotatedTotal(k: string, a: seq<string>, s: Slots)
    requires UnderEdit(s, k)
    ensures Total(Edited(a + [k], s), s) == Total(Edited([k] + a, s), s)
  {
    EditedConcat([k], a, s);
    EditedConcat(a, [k], s);
    assert Edited([k], s) == [k];
    TotalConcat([k], Edited(a, s), s);
    TotalConcat(Edited(a, s), [k], s);
  }

  lemma EvictedTotal(k: string, a: seq<string>, s: Slots)
    requires !UnderEdit(s, k) && k !in a
    ensures Total(Edited(a, s - {k}), s - {k}) == Total(Edited([k] + a, s), s)
  {
    EditedConcat([k], a, s);
    assert Edited([k], s) == [];
    assert [] + Edited(a, s) == Edited(a, s);
    EditedSame(a, s, s - {k});
    EditedMembers(a, s);
    TotalSame(Edited(a, s), s, s - {k});
  }

  /** A round keeps the entries under edit, whatever their order. */
  lemma RoundKeepsEdited(o: seq<string>, s: Slots)
    requires Distinct(o) && (forall k :: k in o ==> k in s) && NonNegative(s)
    ensures var (o', s') := Round(o, s);
      && Distinct(o') && (forall k :: k in o' ==> k in s') && NonNegative(s')
      && Total(Edited(o', s'), s') == Total(Edited(o, s), s)
  {
    if o != [] {
      var k, a := o[0], o[1..];
      assert o == [k] + a && k !in a;
      RoundStep(k, a, s);
      if UnderEdit(s, k) {
        RotatedTotal(k, a, s);
      } else {
        EvictedTotal(k, a, s);
      }
    }
  }

  lemma {:induction false} EditedStay(order: seq<string>, m: Slots, n: nat)
    requires Distinct(order) && (forall k :: k in order ==> k in m) && NonNegative(m)
    ensures var (o, s) := Rounds(order, m, n);
      && Distinct(o) && (forall k :: k in o ==> k in s) && NonNegative(s)
      && Total(Edited(o, s), s) == Total(Edited(order, m), m)
  {
    if n > 0 {
      EditedStay(order, m, n - 1);
      var (o, s) := Rounds(order, m, n - 1);
      RoundKeepsEdited(o, s);
    }
  }

  /** Trimming ends if and only if the entries under edit alone fit. */
  lemma TrimTerminates(order: seq<string>, m: Slots, maxSize: int)
    requires Distinct(order) && (forall k :: k in order ==> k in m) && NonNegative(m)
    ensures (exists n: nat :: SizeAfter(order, m, n) <= maxSize) <==> Total(Edited(order, m), m) <= maxSize
  {
    forall n: nat
      ensures SizeAfter(order, m, n) >= Total(Edited(order, m), m)
    {
      EditedStay(order, m, n);
      var (o, s) := Rounds(order, m, n);
      TotalSplit(o, s);
      TotalNonNegative(Unedited(o, s), s);
    }
    SizeAt(order, m, |order|);
    assert order[..|order|] == order;
    TotalSplit(order, m);
  }

  lemma {:induction false} UneditedReach(order: seq<string>, m: Slots, n: nat, j: nat) returns (i: nat)
    requires n <= |order| && j < |Unedited(order[..n], m)|
    ensures i < n && |Unedited(order[..i], m)| == j
  {
    assert Unedited(order[..0], m) == [];
    TakeStep(order, m, n);
    hide Edited, Unedited;
    if |Unedited(order[..n - 1], m)| == j {
      i := n - 1;
    } else {
      i := UneditedReach(order, m, n - 1, j);
    }
  }

  /** Where trimming stops: it has evicted the shortest least-recently-used prefix of the unedited
      entries that brings the size down to the limit. */
  lemma TrimEvictsShortestPrefix(order: seq<string>, m: Slots, maxSize: int, n: nat)
    requires Distinct(order) && (forall k :: k in order ==> k in m) && NonNegative(m)
    requires SizeAfter(order, m, n) <= maxSize && forall i: nat :: i < n ==> SizeAfter(order, m, i) > maxSize
    ensures n <= |order|
    ensures var u := Unedited(order, m); var e := |Unedited(order[..n], m)|;
      && ShortestPrefix(u, m, Total(order, m) - maxSize, e)
      && Rounds(order, m, n) == (order[n..] + Edited(order[..n], m), m - SetOf(u[..e]))
  {
    TrimTerminates(order, m, maxSize);
    SizeAt(order, m, |order|);
    assert order[..|order|] == order;
    TotalSplit(order, m);
    assert SizeAfter(order, m, |order|) <= maxSize;
    RoundsAt(order, m, n);
    SizeAt(order, m, n);
    UneditedPrefix(order, m, n);
    var u, e := Unedited(order, m), |Unedited(order[..n], m)|;
    forall j | 0 <= j < e
      ensures Total(u[..j], m) < Total(order, m) - maxSize
    {
      var i := UneditedReach(order, m, n, j);
      UneditedPrefix(order, m, i);
      SizeAt(order, m, i);
    }
  }
}
