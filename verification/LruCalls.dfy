/** What the calls of the disk cache do to its entries, its access order and its size. */
module LruCalls {
  import opened Basics
  import opened JournalText
  import opened LineReader
  import opened Journal
  import opened JournalRun
  import opened JournalStore
  import opened LruOrder

  /** How a call ends: with a value, or with an exception. */
  datatype Outcome<+T> = Value(value: T) | IllegalState | IllegalArgument | NoSuchElement

  // ----- sizes and order -----

  lemma {:induction false} SumZeros(n: nat)
    ensures Sum(Zeros(n)) == 0
  {
    if n > 0 {
      assert Zeros(n)[1..] == Zeros(n - 1);
      SumZeros(n - 1);
    }
  }

  lemma {:induction false} SumChanged(ls: seq<int>, i: nat, n: int)
    requires i < |ls|
    ensures Sum(ls[i := n]) == Sum(ls) - ls[i] + n
  {
    if i > 0 {
      SumChanged(ls[1..], i - 1, n);
      assert ls[i := n][1..] == ls[1..][i - 1 := n];
    } else {
      assert ls[0 := n][1..] == ls[1..];
    }
  }

  /** An entry that was never published holds no bytes. */
  ghost predicate UnreadableEmpty(m: Slots) {
    forall k :: k in m && !m[k].readable ==> Sum(m[k].lengths) == 0
  }

  /** The access order lists the entries, and `size` is the sum of all their lengths. */
  ghost predicate Ordered(order: seq<string>, m: Slots, size: int) {
    Lists(order, m) && size == Total(order, m) && NonNegative(m) && UnreadableEmpty(m)
  }

  ghost predicate Idle(m: Slots) {
    forall k :: k in m ==> !m[k].editing
  }

  lemma TouchOrdered(order: seq<string>, key: string, m: Slots, size: int)
    requires Ordered(order, m, size)
    ensures key in m ==> Ordered(Touch(order, key), m, size)
    ensures key !in m ==> Touch(order, key) == order + [key]
  {
    assert Distinct(order);
    WithoutMembers(order, key);
    if key in m {
      TotalTouch(order, key, m);
    }
  }

  lemma SlotOrdered(order: seq<string>, key: string, m: Slots, slot: Slot, size: int)
    requires Ordered(order, m, size) && key in m && slot.readable && forall i :: 0 <= i < |slot.lengths| ==> slot.lengths[i] >= 0
    ensures Ordered(order, m[key := slot], size - Sum(m[key].lengths) + Sum(slot.lengths))
  {
    TotalChanged(order, key, m, m[key := slot]);
  }

  lemma RemovalOrdered(order: seq<string>, key: string, m: Slots, size: int)
    requires Ordered(order, m, size) && key in m
    ensures Ordered(Without(order, key), m - {key}, size - Sum(m[key].lengths))
  {
    assert Distinct(order);
    WithoutMembers(order, key);
    TotalWithout(order, key, m);
    TotalSame(Without(order, key), m, m - {key});
  }

  lemma UpdateTwice<K, V>(m: map<K, V>, k: K, a: V, b: V)
    ensures m[k := a][k := b] == m[k := b]
  {
  }

  // ----- the invariant over the calls -----

  /** The abstract state is sound, and the order and the size belong to it. */
  ghost predicate Sound(s: State, order: seq<string>, size: int, c: Config) {
    Inv(s, c) && Ordered(order, s.slots, size)
  }

  lemma EditKeeps(order: seq<string>, s: State, key: string, size: int, c: Config)
    requires Sound(s, order, size, c) && LegalKey(key) && !Editing(s.slots, key)
    ensures var s' := State(s.slots[key := SlotOr(s.slots, key, c.valueCount).(editing := true)], s.log + [Dirty(key)], s.base);
      Takes(s, Edit(key), s', c) && Sound(s', if key in s.slots then order else order + [key], size, c)
  {
    hide Inv, LegalKey;
    StepInv(s, Edit(key), c);
    EditOrdered(order, key, s.slots, size, c.valueCount);
  }

  lemma EditOrdered(order: seq<string>, key: string, m: Slots, size: int, valueCount: nat)
    requires Ordered(order, m, size)
    ensures Ordered(if key in m then order else order + [key], m[key := SlotOr(m, key, valueCount).(editing := true)], size)
  {
    var m' := m[key := SlotOr(m, key, valueCount).(editing := true)];
    TotalSame(order, m, m');
    if key !in m {
      SumZeros(valueCount);
      TotalConcat(order, [key], m');
      assert Total([key], m') == 0;
    }
  }

  lemma CommitKeeps(order: seq<string>, s: State, key: string, ls: seq<int>, size: int, c: Config)
    requires Sound(s, order, size, c) && Editing(s.slots, key) && LegalLengths(ls, c)
    ensures var s' := State(s.slots[key := Slot(true, false, ls)], s.log + [Clean(key, ls)], s.base);
      Takes(s, Commit(key, ls), s', c) && Sound(s', order, size - Sum(s.slots[key].lengths) + Sum(ls), c)
  {
    StepInv(s, Commit(key, ls), c);
    SlotOrdered(order, key, s.slots, Slot(true, false, ls), size);
  }

  lemma RestoreKeeps(order: seq<string>, s: State, key: string, size: int, c: Config)
    requires Sound(s, order, size, c) && Editing(s.slots, key) && s.slots[key].readable
    ensures var s' := State(s.slots[key := s.slots[key].(editing := false)], s.log + [Clean(key, s.slots[key].lengths)], s.base);
      Takes(s, Abort(key), s', c) && Sound(s', order, size, c)
  {
    StepInv(s, Abort(key), c);
    SlotOrdered(order, key, s.slots, s.slots[key].(editing := false), size);
  }

  lemma ForgetKeeps(order: seq<string>, s: State, key: string, size: int, c: Config)
    requires Sound(s, order, size, c) && Editing(s.slots, key) && !s.slots[key].readable
    ensures var s' := State(s.slots - {key}, s.log + [JournalText.Remove(key)], s.base);
      Takes(s, Abort(key), s', c) && Sound(s', Without(order, key), size, c)
  {
    StepInv(s, Abort(key), c);
    RemovalOrdered(order, key, s.slots, size);
  }

  lemma DropKeeps(order: seq<string>, s: State, key: string, size: int, c: Config)
    requires Sound(s, order, size, c) && key in s.slots && !s.slots[key].editing
    ensures var s' := State(s.slots - {key}, s.log + [JournalText.Remove(key)], s.base);
      Takes(s, Drop(key), s', c) && Sound(s', Without(order, key), size - Sum(s.slots[key].lengths), c)
  {
    StepInv(s, Drop(key), c);
    RemovalOrdered(order, key, s.slots, size);
  }

  lemma GetKeeps(order: seq<string>, s: State, key: string, size: int, c: Config)
    requires Sound(s, order, size, c) && key in s.slots && s.slots[key].readable
    ensures var s' := State(s.slots, s.log + [Read(key)], s.base); Takes(s, Get(key), s', c) && Sound(s', order, size, c)
  {
    StepInv(s, Get(key), c);
  }

  lemma CompactKeeps(order: seq<string>, s: State, size: int, c: Config)
    requires Sound(s, order, size, c)
    ensures Lists(order, s.slots)
    ensures var s' := State(s.slots, CompactLog(order, s.slots), |order|); Takes(s, Compact(order), s', c) && Sound(s', order, size, c)
  {
    StepInv(s, Compact(order), c);
  }

  lemma TouchSound(s: State, order: seq<string>, key: string, size: int, c: Config)
    requires Sound(s, order, size, c) && key in s.slots
    ensures Sound(s, Touch(order, key), size, c)
  {
    TouchOrdered(order, key, s.slots, size);
  }

  /** What the state says of one key. */
  lemma SlotSound(s: State, order: seq<string>, size: int, c: Config, key: string)
    requires Sound(s, order, size, c)
    ensures key in order <==> key in s.slots
    ensures key in s.slots ==> LegalKey(key) && LegalLengths(s.slots[key].lengths, c) && (s.slots[key].editing || s.slots[key].readable)
  {
  }

  // ----- publishing -----

  /** The lengths after the dirty files that exist have replaced the clean ones. */
  function NewLengths(ls: seq<int>, dirty: seq<Option<nat>>): (r: seq<int>)
    ensures |r| == |ls|
  {
    seq(|ls|, i requires 0 <= i < |ls| => if i < |dirty| && dirty[i].Some? then dirty[i].value else ls[i])
  }

  /** One report per value: the length of its dirty file, if there is one. */
  predicate Reports(dirty: seq<Option<nat>>, c: Config) {
    |dirty| == c.valueCount && forall i :: 0 <= i < |dirty| && dirty[i].Some? ==> Long(dirty[i].value)
  }

  lemma NewLengthsLegal(ls: seq<int>, dirty: seq<Option<nat>>, c: Config)
    requires LegalLengths(ls, c) && Reports(dirty, c)
    ensures LegalLengths(NewLengths(ls, dirty), c)
  {
  }

  /** A first publication needs every value to be written; anything else keeps the old values. */
  predicate Publishes(slot: Slot, written: seq<bool>, dirty: seq<Option<nat>>) {
    slot.readable || (forall i :: 0 <= i < |dirty| ==> i < |written| && written[i] && dirty[i].Some?)
  }

  /** The first value that stops a first publication was never written, so the caller is told. */
  predicate Complains(written: seq<bool>, dirty: seq<Option<nat>>) {
    exists i :: 0 <= i < |dirty| && !(i < |written| && written[i])
      && (forall j :: 0 <= j < i ==> dirty[j].Some?)
  }

  /** How an open edit ends: published, or dropped. */
  ghost predicate Completes(s: State, key: string, success: bool, written: seq<bool>, dirty: seq<Option<nat>>,
                            s': State, r: Outcome<()>, c: Config) {
    key in s.slots &&
    if success && Publishes(s.slots[key], written, dirty)
    then r == Value(()) && Takes(s, Commit(key, NewLengths(s.slots[key].lengths, dirty)), s', c)
    else Takes(s, Abort(key), s', c) && r == if success && Complains(written, dirty) then IllegalState else Value(())
  }

  /** What opening an edit means: the entry keeps its values, and a new one has none yet. */
  lemma EditPlainly(s: State, key: string, s': State, c: Config)
    requires Takes(s, Edit(key), s', c)
    ensures key in s'.slots && s'.slots[key].editing && s'.log == s.log + [Dirty(key)] && s'.slots.Keys == s.slots.Keys + {key}
    ensures forall k :: k in s.slots && k != key ==> s'.slots[k] == s.slots[k]
    ensures if key in s.slots then !s.slots[key].editing && s'.slots[key] == s.slots[key].(editing := true)
            else !s'.slots[key].readable && s'.slots[key].lengths == seq(c.valueCount, _ => 0)
  {
  }

  lemma DropPlainly(s: State, key: string, s': State, c: Config)
    requires Takes(s, Drop(key), s', c)
    ensures key in s.slots && !s.slots[key].editing && s'.slots.Keys == s.slots.Keys - {key} && s'.log == s.log + [JournalText.Remove(key)]
    ensures forall k :: k in s'.slots ==> s'.slots[k] == s.slots[k]
  {
  }

  lemma GetPlainly(s: State, key: string, s': State, c: Config)
    requires Takes(s, Get(key), s', c)
    ensures key in s.slots && s.slots[key].readable && s'.slots == s.slots && s'.log == s.log + [Read(key)]
  {
  }

  /** What that means: a published edit replaces the lengths of the values that have a dirty file and no
      others, an entry that was published before stays as it was when its edit is dropped, and one that
      never was goes. Nothing else changes. */
  lemma CompletesPlainly(s: State, key: string, success: bool, written: seq<bool>, dirty: seq<Option<nat>>,
                         s': State, r: Outcome<()>, c: Config)
    requires Completes(s, key, success, written, dirty, s', r, c) && |written| == |dirty| == c.valueCount
    requires |s.slots[key].lengths| == c.valueCount
    ensures var m, m' := s.slots, s'.slots; var complete := forall i :: 0 <= i < c.valueCount ==> written[i] && dirty[i].Some?;
      && (forall k :: k != key ==> (k in m' <==> k in m) && (k in m ==> m'[k] == m[k]))
      && (r == IllegalState <==> success && !m[key].readable && exists i: nat :: FirstGap(written, dirty, i) && !written[i])
      && if m[key].readable || (success && complete) then
           && key in m' && m'[key].readable && !m'[key].editing && |m'[key].lengths| == c.valueCount
           && s'.log == s.log + [Clean(key, m'[key].lengths)]
           && forall i :: 0 <= i < c.valueCount ==>
                m'[key].lengths[i] == if success && dirty[i].Some? then dirty[i].value else m[key].lengths[i]
         else key !in m' && s'.log == s.log + [JournalText.Remove(key)]
  {
    hide FirstGap, Complains;
    ComplainsAtGap(written, dirty);
  }

  lemma ComplainsAtGap(written: seq<bool>, dirty: seq<Option<nat>>)
    requires |written| == |dirty|
    ensures Complains(written, dirty) <==> exists i: nat :: FirstGap(written, dirty, i) && !written[i]
    ensures Complains(written, dirty) ==> !forall i :: 0 <= i < |dirty| ==> written[i] && dirty[i].Some?
  {
    if Complains(written, dirty) {
      var i := FirstUnwritten(written);
      assert FirstGap(written, dirty, i);
    }
  }

  /** The first value that was not written or has no dirty file. */
  ghost predicate FirstGap(written: seq<bool>, dirty: seq<Option<nat>>, i: nat) {
    && i < |written| && i < |dirty| && !(written[i] && dirty[i].Some?)
    && forall j :: 0 <= j < i ==> written[j] && dirty[j].Some?
  }

  lemma {:induction false} FirstUnwritten(written: seq<bool>) returns (i: nat)
    requires exists j :: 0 <= j < |written| && !written[j]
    ensures i < |written| && !written[i] && forall j :: 0 <= j < i ==> written[j]
  {
    i := 0;
    while written[i]
      invariant i < |written| && forall j :: 0 <= j < i ==> written[j]
      invariant exists j :: i <= j < |written| && !written[j]
      decreases |written| - i
    {
      i := i + 1;
    }
  }

  /** An edit with errors is dropped, and the entry with it. */
  ghost predicate Discards(s: State, key: string, s': State, c: Config) {
    exists s1 :: Takes(s, Abort(key), s1, c) && if key in s1.slots then Takes(s1, Drop(key), s', c) else s' == s1
  }

  lemma FailedAborts(s: State, key: string, written: seq<bool>, dirty: seq<Option<nat>>, s': State, r: Outcome<()>, c: Config)
    requires Completes(s, key, false, written, dirty, s', r, c)
    ensures Takes(s, Abort(key), s', c) && r == Value(()) && (key in s'.slots <==> Readable(s.slots, key))
  {
  }

  lemma NotEditing(s: State, key: string, s': State, c: Config)
    requires Takes(s, Abort(key), s', c)
    ensures key in s'.slots ==> !s'.slots[key].editing
  {
  }

  lemma DiscardedBy(s: State, key: string, s1: State, s': State, c: Config)
    requires Takes(s, Abort(key), s1, c) && if key in s1.slots then Takes(s1, Drop(key), s', c) else s' == s1
    ensures Discards(s, key, s', c) && key !in s'.slots
  {
  }

  /** An edit that is dropped takes an entry that was never published with it. */
  function AbortOrder(order: seq<string>, m: Slots, key: string): seq<string> {
    if key in m && m[key].readable then order else Without(order, key)
  }

  /** The access order after an edit has ended; publishing does not count as an access. */
  function CompleteOrder(order: seq<string>, m: Slots, key: string, success: bool, written: seq<bool>, dirty: seq<Option<nat>>): seq<string> {
    if success && key in m && Publishes(m[key], written, dirty) then order else AbortOrder(order, m, key)
  }

  predicate Readable(m: Slots, key: string) {
    key in m && m[key].readable
  }

  /** A publication gives its entry the next sequence number, and nothing else does. */
  predicate Renumbered(number: int, next: int, number0: int, next0: int, published: bool) {
    if published then number == next0 && next == next0 + 1 else number == number0 && next == next0
  }

  lemma WithoutTwice(order: seq<string>, key: string)
    ensures Without(Without(order, key), key) == Without(order, key)
  {
    WithoutMembers(order, key);
    WithoutMembers(Without(order, key), key);
  }

  lemma {:induction false} TouchWithout(order: seq<string>, key: string)
    ensures Without(Touch(order, key), key) == Without(order, key)
  {
    WithoutConcat(Without(order, key), [key], key);
    WithoutMembers(order, key);
    WithoutMembers(Without(order, key), key);
  }

  lemma {:induction false} WithoutConcat(a: seq<string>, b: seq<string>, key: string)
    ensures Without(a + b, key) == Without(a, key) + Without(b, key)
  {
    if a == [] {
      assert a + b == b;
    } else {
      WithoutConcat(a[1..], b, key);
      WithoutHead(a, b, key);
    }
  }

  lemma WithoutHead(a: seq<string>, b: seq<string>, key: string)
    requires a != []
    ensures Without(a + b, key) == (if a[0] == key then [] else [a[0]]) + Without(a[1..] + b, key)
  {
    assert (a + b)[1..] == a[1..] + b;
  }

  // ----- trimming -----

  function Removals(keys: seq<string>): seq<Record> {
    seq(|keys|, i requires 0 <= i < |keys| => JournalText.Remove(keys[i]))
  }

  /** The state after dropping `keys`. */
  function DropAll(s: State, keys: seq<string>): State {
    State(s.slots - SetOf(keys), s.log + Removals(keys), s.base)
  }

  lemma DropAllStep(s: State, keys: seq<string>, k: string)
    ensures DropAll(s, keys + [k]) == State(DropAll(s, keys).slots - {k}, DropAll(s, keys).log + [JournalText.Remove(k)], s.base)
    ensures DropAll(s, []) == s
  {
    RoundMap(s.slots, keys, k);
    assert SetOf<string>([]) == {};
    assert Removals(keys + [k]) == Removals(keys) + [JournalText.Remove(k)];
  }

  /** The entries evicted are the shortest prefix of the unedited ones that suffices; those under
      edit that were passed over have moved to the end. */
  ghost predicate Trims(s: State, order: seq<string>, maxSize: int, s': State, order': seq<string>, n: nat) {
    && n <= |order|
    && order' == order[n..] + Edited(order[..n], s.slots)
    && var u, e := Unedited(order, s.slots), |Unedited(order[..n], s.slots)|;
       && ShortestPrefix(u, s.slots, Total(order, s.slots) - maxSize, e)
       && s' == DropAll(s, u[..e])
  }

  lemma TrimStep(s: State, order: seq<string>, n: nat)
    requires Lists(order, s.slots) && n < |order|
    ensures var k, (o, m), u := order[n], Rounds(order, s.slots, n), Unedited(order[..n], s.slots);
      && o != [] && o[0] == k && m == DropAll(s, u).slots && k in m && (m[k].editing <==> UnderEdit(s.slots, k))
      && Rounds(order, s.slots, n + 1) == (if m[k].editing then (Touch(o, k), m) else (Without(o, k), m - {k}))
      && Unedited(order[..n + 1], s.slots) == if m[k].editing then u else u + [k]
  {
    var k, u := order[n], Unedited(order[..n], s.slots);
    RoundsAt(order, s.slots, n);
    TakeStep(order, s.slots, n + 1);
    EditedMembers(order[..n], s.slots);
    assert k in order && k !in order[..n];
  }

  /** Trimming ends if the entries under edit alone fit, or if there are none. */
  predicate Trimmable(order: seq<string>, m: Slots, maxSize: int) {
    Total(Edited(order, m), m) <= maxSize || Edited(order, m) == []
  }

  /** An entry of 100 bytes that is edited again. */
  function ReeditedSteps(): seq<Step> {
    [Edit("a"), Commit("a", [100]), Edit("a")]
  }

  function ReeditedStates(): seq<State> {
    var da, a := Dirty("a"), Clean("a", [100]);
    [State(map[], [], 0), State(map["a" := Slot(false, true, [0])], [da], 0),
     State(map["a" := Slot(true, false, [100])], [da, a], 0), State(map["a" := Slot(true, true, [100])], [da, a, da], 0)]
  }

  lemma ReeditedRun(c: Config)
    requires LegalConfig(c) && c.valueCount == 1
    ensures Run(ReeditedStates(), ReeditedSteps(), c)
  {
    var states, steps := ReeditedStates(), ReeditedSteps();
    assert Zeros(1) == [0];
    assert Takes(states[0], steps[0], states[1], c);
    assert Takes(states[1], steps[1], states[2], c);
    assert Takes(states[2], steps[2], states[3], c);
  }

  /** With a limit of 50 the loop never ends there. */
  lemma TrimNeverEnds(c: Config)
    requires LegalConfig(c) && c.valueCount == 1
    ensures Run(ReeditedStates(), ReeditedSteps(), c) && Lists(["a"], ReeditedStates()[3].slots)
    ensures forall n: nat :: SizeAfter(["a"], ReeditedStates()[3].slots, n) > 50
  {
    hide Run, SizeAfter, Rounds, Unedited;
    ReeditedRun(c);
    var m := ReeditedStates()[3].slots;
    assert ["a"][..0] == [] && [100][1..] == [];
    assert Edited(["a"], m) == ["a"];
    assert Total(["a"], m) == 100;
    TrimTerminates(["a"], m, 50);
  }

  /** Where a pass of trimming stands after `n` rounds. */
  ghost predicate TrimmedSoFar(s0: State, order0: seq<string>, maxSize: int, n: nat, s: State, order: seq<string>) {
    && n <= |order0| && (order, s.slots) == Rounds(order0, s0.slots, n) && s == DropAll(s0, Unedited(order0[..n], s0.slots))
    && forall i :: 0 <= i < n ==> SizeAfter(order0, s0.slots, i) > maxSize
  }

  /** Trimming, and a rebuild if at least 2000 records are redundant by then, and no fewer than there are
      entries. */
  ghost predicate CleansUp(s: State, order: seq<string>, count: int, maxSize: int,
                           s': State, order': seq<string>, count': int, n: nat, c: Config) {
    exists s1 :: Trims(s, order, maxSize, s1, order', n) && Rebuilds(s1, order', count + |order| - |order'|, s', count', c)
  }

  ghost predicate Rebuilds(s: State, order: seq<string>, count: int, s': State, count': int, c: Config) {
    if count >= 2000 && count >= |order| then Takes(s, Compact(order), s', c) && count' == 0 else s' == s && count' == count
  }

  /** The journal is rebuilt exactly if at least 2000 records are redundant behind the trimming, and at
      least as many as there are entries left; it has then one record for each. */
  lemma CleansUpPlainly(s: State, order: seq<string>, count: int, maxSize: int, s': State, order': seq<string>, count': int, n: nat, c: Config)
    requires CleansUp(s, order, count, maxSize, s', order', count', n, c)
    ensures var redundant := count + |order| - |order'|;
      if redundant >= 2000 && redundant >= |order'| then count' == 0 && |s'.log| == |order'| else count' == redundant && s.log <= s'.log
  {
  }

  lemma TrimStart(s: State, order: seq<string>, maxSize: int)
    ensures TrimmedSoFar(s, order, maxSize, 0, s, order)
  {
    DropAllStep(s, [], "");
  }

  lemma TrimNext(s0: State, order0: seq<string>, maxSize: int, n: nat, s: State, order: seq<string>)
    requires TrimmedSoFar(s0, order0, maxSize, n, s, order)
    requires Lists(order0, s0.slots) && NonNegative(s0.slots) && Trimmable(order0, s0.slots, maxSize) && maxSize < Total(order, s.slots)
    ensures order == [] ==> maxSize < 0 && s == DropAll(s0, Unedited(order0, s0.slots))
    ensures order != [] ==> n < |order0| && order[0] in s.slots
    ensures order != [] ==>
      var k := order[0]; if s.slots[k].editing then TrimmedSoFar(s0, order0, maxSize, n + 1, s, Touch(order, k))
      else TrimmedSoFar(s0, order0, maxSize, n + 1, State(s.slots - {k}, s.log + [JournalText.Remove(k)], s.base), Without(order, k))
  {
    if order == [] {
      RoundsAt(order0, s0.slots, n);
      assert order0[..n] == order0;
    } else {
      TrimMore(order0, s0.slots, maxSize, n);
      TrimStep(s0, order0, n);
      DropAllStep(s0, Unedited(order0[..n], s0.slots), order[0]);
    }
  }

  lemma TrimMore(order: seq<string>, m: Slots, maxSize: int, n: nat)
    requires Lists(order, m) && n <= |order| && Trimmable(order, m, maxSize) && maxSize < SizeAfter(order, m, n)
    requires Rounds(order, m, n).0 != []
    ensures n < |order|
  {
    SizeAt(order, m, |order|);
    RoundsAt(order, m, n);
    assert order[..|order|] == order;
    TotalSplit(order, m);
  }

  lemma TouchLength(order: seq<string>, key: string, m: Slots)
    requires Lists(order, m) && key in order
    ensures |Touch(order, key)| == |order| && |Without(order, key)| == |order| - 1
  {
    assert Distinct(order);
    WithoutLength(order, key);
  }

  lemma {:induction false} WithoutLength(order: seq<string>, key: string)
    requires Distinct(order)
    ensures |Without(order, key)| == |order| - if key in order then 1 else 0
  {
    if order != [] {
      WithoutLength(order[1..], key);
      assert order == [order[0]] + order[1..];
    }
  }

  lemma TrimEnd(s0: State, order0: seq<string>, maxSize: int, n: nat, s: State, order: seq<string>)
    requires TrimmedSoFar(s0, order0, maxSize, n, s, order)
    requires Lists(order0, s0.slots) && NonNegative(s0.slots) && Total(order, s.slots) <= maxSize
    ensures Trims(s0, order0, maxSize, s, order, n)
    ensures NonNegative(s.slots) ==> maxSize >= 0
  {
    if NonNegative(s.slots) {
      TotalNonNegative(order, s.slots);
    }
    TrimEvictsShortestPrefix(order0, s0.slots, maxSize, n);
    UneditedPrefix(order0, s0.slots, n);
    RoundsAt(order0, s0.slots, n);
  }

  // ----- trimming and closing as steps of a run -----

  /** The steps take effect one after the other and lead from `s` to `s'`. */
  ghost predicate Reaches(s: State, steps: seq<Step>, s': State, c: Config)
    decreases |steps|
  {
    if steps == [] then s' == s else Enabled(s, steps[0], c) && Reaches(Do(s, steps[0], c), steps[1..], s', c)
  }

  function Aborts(keys: seq<string>): seq<Step> {
    seq(|keys|, i requires 0 <= i < |keys| => Abort(keys[i]))
  }

  function Drops(keys: seq<string>): seq<Step> {
    seq(|keys|, i requires 0 <= i < |keys| => Drop(keys[i]))
  }

  lemma {:induction false} ReachesThen(s: State, steps: seq<Step>, s1: State, more: seq<Step>, s2: State, c: Config)
    requires Reaches(s, steps, s1, c) && Reaches(s1, more, s2, c)
    ensures Reaches(s, steps + more, s2, c)
    decreases |steps|
  {
    hide Enabled, Do;
    if steps == [] {
      assert steps + more == more;
    } else {
      ReachesThen(Do(s, steps[0], c), steps[1..], s1, more, s2, c);
      assert (steps + more)[1..] == steps[1..] + more;
    }
  }

  lemma ReachesOne(s: State, steps: seq<Step>, s1: State, step: Step, s2: State, c: Config)
    requires Reaches(s, steps, s1, c) && Takes(s1, step, s2, c)
    ensures Reaches(s, steps + [step], s2, c)
  {
    hide Enabled, Do;
    assert [step][1..] == [];
    ReachesThen(s, steps, s1, [step], s2, c);
  }

  /** One more edit of a listing has been dropped. */
  lemma AbortReached(s: State, order: seq<string>, m: Slots, i: nat, s1: State, s2: State, c: Config)
    requires i < |order| && Reaches(s, Aborts(Edited(order[..i], m)), s1, c)
    ensures !UnderEdit(m, order[i]) ==> Reaches(s, Aborts(Edited(order[..i + 1], m)), s1, c)
    ensures UnderEdit(m, order[i]) && Takes(s1, Abort(order[i]), s2, c) ==> Reaches(s, Aborts(Edited(order[..i + 1], m)), s2, c)
  {
    hide Enabled, Do, Reaches;
    TakeStep(order, m, i + 1);
    if UnderEdit(m, order[i]) && Takes(s1, Abort(order[i]), s2, c) {
      var keys := Edited(order[..i], m);
      assert Aborts(keys + [order[i]]) == Aborts(keys) + [Abort(order[i])];
      ReachesOne(s, Aborts(keys), s1, Abort(order[i]), s2, c);
    }
  }

  /** Evicting entries is a run of removals. */
  lemma {:induction false} DropsReach(s: State, keys: seq<string>, c: Config)
    requires Distinct(keys) && forall k :: k in keys ==> k in s.slots && !s.slots[k].editing
    ensures Reaches(s, Drops(keys), DropAll(s, keys), c)
  {
    if keys == [] {
      DropAllStep(s, [], "");
    } else {
      var n := |keys| - 1;
      var k, front := keys[n], keys[..n];
      assert keys == front + [k];
      assert k !in front;
      DropsReach(s, front, c);
      DropAllStep(s, front, k);
      assert Drops(keys) == Drops(front) + [Drop(k)];
      ReachesOne(s, Drops(front), DropAll(s, front), Drop(k), DropAll(s, keys), c);
    }
  }

  /** Trimming is a run of removals. */
  lemma TrimIsRun(s: State, order: seq<string>, maxSize: int, s': State, order': seq<string>, n: nat, c: Config)
    requires Trims(s, order, maxSize, s', order', n) && Lists(order, s.slots)
    ensures n <= |order|
    ensures var u, e := Unedited(order, s.slots), |Unedited(order[..n], s.slots)|;
      e <= |u| && Reaches(s, Drops(u[..e]), s', c)
  {
    var u, e := Unedited(order, s.slots), |Unedited(order[..n], s.slots)|;
    EditedMembers(order, s.slots);
    assert Distinct(order);
    UneditedDistinct(order, s.slots);
    assert forall k :: k in u[..e] ==> k in u;
    DropsReach(s, u[..e], c);
  }

  /** Closing is a run of dropped edits and removals. */
  lemma CloseIsRun(s0: State, order: seq<string>, maxSize: int, s': State, order': seq<string>, n: nat, c: Config) returns (evicted: seq<string>)
    requires CloseTrims(s0, order, maxSize, s', order', n, c) && Lists(order, s0.slots)
    ensures Reaches(s0, Aborts(Edited(order, s0.slots)) + Drops(evicted), s', c)
  {
    hide Reaches, Trims, Aborted, PublishedKeys;
    var s: State :| s.slots == Aborted(s0.slots, order) && Reaches(s0, Aborts(Edited(order, s0.slots)), s, c)
      && Trims(s, PublishedKeys(order, s0.slots), maxSize, s', order', n);
    var left := PublishedKeys(order, s0.slots);
    PublishedLists(order, s0.slots);
    TrimIsRun(s, left, maxSize, s', order', n, c);
    evicted := Unedited(left, s.slots)[..|Unedited(left[..n], s.slots)|];
    ReachesThen(s0, Aborts(Edited(order, s0.slots)), s, Drops(evicted), s', c);
  }

  /** So every run goes on with them. */
  lemma {:induction false} RunGoesOn(states: seq<State>, steps: seq<Step>, more: seq<Step>, s': State, c: Config) returns (later: seq<State>)
    requires Run(states, steps, c) && Reaches(states[|steps|], more, s', c)
    ensures Run(states + later, steps + more, c) && |later| == |more| && (states + later)[|steps + more|] == s'
    decreases |more|
  {
    hide Enabled, Do, LegalConfig;
    if more == [] {
      later := [];
      assert states + later == states && steps + more == steps;
    } else {
      var next := Do(states[|steps|], more[0], c);
      later := RunGoesOn(states + [next], steps + [more[0]], more[1..], s', c);
      later := [next] + later;
      Assoc(states, [next], later[1..]);
      assert steps + [more[0]] + more[1..] == steps + more;
    }
  }

  // ----- closing -----

  function PublishedKeys(order: seq<string>, m: Slots): seq<string> {
    if order == [] then []
    else var n := |order| - 1;
      if order[n] in m && m[order[n]].readable then PublishedKeys(order[..n], m) + [order[n]] else PublishedKeys(order[..n], m)
  }

  /** The entries after the edits of `keys` have been dropped. */
  function Aborted(m: Slots, keys: seq<string>): Slots {
    map k | k in m && (k in keys ==> m[k].readable) :: if k in keys then m[k].(editing := false) else m[k]
  }

  lemma AbortedMore(m: Slots, keys: seq<string>, k: string)
    requires k in m && k !in keys
    ensures k in Aborted(m, keys) && Aborted(m, keys)[k] == m[k]
    ensures Aborted(m, keys + [k]) ==
      if m[k].readable then Aborted(m, keys)[k := m[k].(editing := false)] else Aborted(m, keys) - {k}
  {
    assert forall j :: j in keys + [k] <==> j in keys || j == k;
  }

  lemma SameSlot(m: Slots, k: string)
    requires k in m && !m[k].editing
    ensures m[k := m[k].(editing := false)] == m
  {
  }

  lemma {:induction false} PublishedMembers(order: seq<string>, m: Slots)
    ensures forall k :: k in PublishedKeys(order, m) <==> k in order && Readable(m, k)
    ensures Distinct(order) ==> Distinct(PublishedKeys(order, m))
  {
    if order != [] {
      var n := |order| - 1;
      PublishedMembers(order[..n], m);
      assert order == order[..n] + [order[n]];
      assert Distinct(order) ==> order[n] !in order[..n];
    }
  }

  lemma PublishedLists(order: seq<string>, m: Slots)
    requires Lists(order, m)
    ensures Lists(PublishedKeys(order, m), Aborted(m, order))
  {
    assert Distinct(order);
    PublishedMembers(order, m);
  }

  lemma AbortStep(order: seq<string>, m: Slots, i: nat)
    requires Lists(order, m) && i < |order|
    ensures order[i] in m && order[i] !in order[..i] && order[..i + 1] == order[..i] + [order[i]]
    ensures var k, p := order[i], PublishedKeys(order[..i], m);
      && Without(p + order[i..], k) == p + order[i + 1..]
      && p + order[i..] == p + [k] + order[i + 1..]
      && PublishedKeys(order[..i + 1], m) == (if m[k].readable then p + [k] else p)
  {
    var k, p := order[i], PublishedKeys(order[..i], m);
    assert order[..i + 1][..i] == order[..i];
    PublishedMembers(order[..i], m);
    DropFirst(p, order, i);
  }

  lemma {:induction false} IdleEdited(order: seq<string>, m: Slots)
    requires Idle(m)
    ensures Edited(order, m) == []
  {
    if order != [] {
      IdleEdited(order[..|order| - 1], m);
    }
  }

  /** What closing leaves: the published entries without their edits, trimmed. */
  ghost predicate CloseTrims(s0: State, order: seq<string>, maxSize: int, s': State, order': seq<string>, n: nat, c: Config) {
    exists s: State ::
      && s.slots == Aborted(s0.slots, order) && Reaches(s0, Aborts(Edited(order, s0.slots)), s, c)
      && Trims(s, PublishedKeys(order, s0.slots), maxSize, s', order', n)
  }

  lemma AbortFirst(order: seq<string>, s: State, c: Config)
    ensures PublishedKeys(order[..0], s.slots) + order[0..] == order && Aborted(s.slots, order[..0]) == s.slots
    ensures Reaches(s, Aborts(Edited(order[..0], s.slots)), s, c)
  {
  }

  lemma AbortLast(order: seq<string>, m: Slots)
    requires Lists(order, m)
    ensures var all := order[..|order|];
      PublishedKeys(all, m) + order[|order|..] == PublishedKeys(order, m) && Aborted(m, all) == Aborted(m, order)
        && Edited(all, m) == Edited(order, m)
    ensures Idle(Aborted(m, order))
  {
    assert order[..|order|] == order;
  }

  lemma TrimIdle(s: State, order: seq<string>, maxSize: int, s': State, order': seq<string>, n: nat)
    requires Trims(s, order, maxSize, s', order', n) && Idle(s.slots)
    ensures Idle(s'.slots)
  {
  }

  // ----- opening -----

  predicate Sized(m: Slots, n: nat) {
    forall k :: k in m ==> |m[k].lengths| == n
  }

  lemma TouchLists(order: seq<string>, key: string, m: Slots)
    requires Lists(order, m) && key in m
    ensures Lists(Touch(order, key), m)
  {
    assert Distinct(order);
    WithoutMembers(order, key);
  }

  lemma WithoutLists(order: seq<string>, key: string, m: Slots)
    requires Lists(order, m)
    ensures Lists(Without(order, key), m - {key})
  {
    assert Distinct(order);
    WithoutMembers(order, key);
  }

  lemma {:induction false} ParseLongsAt(ps: seq<string>)
    ensures ParseLongs(ps).Some? <==> forall i :: 0 <= i < |ps| ==> ParseLong(ps[i]).Some?
    ensures ParseLongs(ps).Some? ==> |ParseLongs(ps).value| == |ps|
    ensures ParseLongs(ps).Some? ==> forall i :: 0 <= i < |ps| ==> ParseLong(ps[i]) == Some(ParseLongs(ps).value[i])
  {
    if ps != [] {
      ParseLongsAt(ps[1..]);
      assert ps == [ps[0]] + ps[1..];
    }
  }

  /** What a line that names an entry says. */
  lemma EntryLine(line: string, valueCount: nat)
    requires IndexOf(line, ' ', 0) != -1
    ensures var first := IndexOf(line, ' ', 0);
      var second := IndexOf(line, ' ', first + 1);
      var key := if second == -1 then line[first + 1..] else line[first + 1..second];
      ParseLine(line, valueCount) ==
        if second == -1 && first == 6 && StartsWith(line, "REMOVE") then Some(JournalText.Remove(key))
        else if second != -1 && first == 5 && StartsWith(line, "CLEAN") then
          (if |Split(line[second + 1..])| == valueCount && ParseLongs(Split(line[second + 1..])).Some?
           then Some(Clean(key, ParseLongs(Split(line[second + 1..])).value)) else None)
        else if second == -1 && first == 5 && StartsWith(line, "DIRTY") then Some(Dirty(key))
        else if second == -1 && first == 4 && StartsWith(line, "READ") then Some(Read(key))
        else None
  {
    hide IndexOf, StartsWith, Split, ParseLongs;
  }

  /** A line that names an entry is an access to it. */
  lemma EntryStep(order: seq<string>, line: string, valueCount: nat)
    ensures var r := ParseLine(line, valueCount);
      r.Some? && !r.value.Remove? ==> OrderStep(order, r.value) == Touch(order, r.value.key)
  {
  }

  lemma NewLists(order: seq<string>, key: string, m: Slots, valueCount: nat)
    requires Lists(order, m) && key !in m
    ensures Touch(order, key) == order + [key] && Lists(order + [key], m[key := FreshSlot(valueCount)])
  {
    WithoutMembers(order, key);
  }

  function Prepend(rs: seq<Record>, o: Option<seq<Record>>): Option<seq<Record>> {
    if o == None then None else Some(rs + o.value)
  }

  lemma ParseStep(rs: seq<Record>, line: string, rest: seq<string>, valueCount: nat)
    ensures ParseLine(line, valueCount) == None ==> Prepend(rs, ParseLines([line] + rest, valueCount)) == None
    ensures ParseLine(line, valueCount).Some? ==>
      Prepend(rs, ParseLines([line] + rest, valueCount)) == Prepend(rs + [ParseLine(line, valueCount).value], ParseLines(rest, valueCount))
  {
    assert ([line] + rest)[1..] == rest;
    if ParseLine(line, valueCount).Some? && ParseLines(rest, valueCount).Some? {
      Assoc(rs, [ParseLine(line, valueCount).value], ParseLines(rest, valueCount).value);
    }
  }

  lemma ReadingStarts(text: string, valueCount: nat)
    ensures Replay([], valueCount) == map[] && ReplayOrder([]) == []
    ensures Prepend([], ParseLines(Lines(text), valueCount)) == ParseLines(Lines(text), valueCount)
    ensures Lists([], map[])
  {
    if ParseLines(Lines(text), valueCount).Some? {
      assert [] + ParseLines(Lines(text), valueCount).value == ParseLines(Lines(text), valueCount).value;
    }
  }

  lemma ReadingEnds(records: seq<Record>, valueCount: nat)
    ensures Prepend(records, ParseLines([], valueCount)) == Some(records)
  {
    assert records + [] == records;
  }

  /** The entries when the journal has been processed up to `keys`. */
  function CleanedSoFar(m: Slots, keys: seq<string>): Slots {
    map k | k in m && !(k in keys && m[k].editing) :: m[k]
  }

  lemma CleanedMore(m: Slots, keys: seq<string>, k: string)
    requires k in m && k !in keys
    ensures k in CleanedSoFar(m, keys) && CleanedSoFar(m, keys)[k] == m[k]
    ensures CleanedSoFar(m, keys + [k]) == if m[k].editing then CleanedSoFar(m, keys) - {k} else CleanedSoFar(m, keys)
  {
    assert forall j :: j in keys + [k] <==> j in keys || j == k;
  }

  lemma CleanedFirst(order: seq<string>, m: Slots)
    ensures CleanedSoFar(m, order[..0]) == m && Unedited(order[..0], m) + order[0..] == order && Total(Unedited(order[..0], m), m) == 0
  {
  }

  lemma CleanedLast(order: seq<string>, m: Slots)
    requires Lists(order, m)
    ensures var all := order[..|order|];
      CleanedSoFar(m, all) == Cleaned(m) && Unedited(all, m) + order[|order|..] == Unedited(order, m) && Unedited(all, m) == Unedited(order, m)
  {
    assert order[..|order|] == order;
  }

  lemma TotalMore(keys: seq<string>, k: string, m: Slots)
    requires k in m
    ensures Total(keys + [k], m) == Total(keys, m) + Sum(m[k].lengths)
  {
    TotalConcat(keys, [k], m);
  }

  lemma {:induction false} SumTake(ls: seq<int>, t: nat)
    requires t < |ls|
    ensures Sum(ls[..t + 1]) == Sum(ls[..t]) + ls[t]
  {
    if t > 0 {
      SumTake(ls[1..], t - 1);
      assert ls[..t + 1][1..] == ls[1..][..t] && ls[..t][1..] == ls[1..][..t - 1];
    } else {
      assert ls[..1][1..] == [];
    }
  }

  lemma CleanStep(order: seq<string>, m: Slots, i: nat)
    requires Lists(order, m) && i < |order|
    ensures order[i] in m && order[i] !in order[..i] && order[..i + 1] == order[..i] + [order[i]]
    ensures var k, u := order[i], Unedited(order[..i], m);
      && Without(u + order[i..], k) == u + order[i + 1..]
      && u + order[i..] == u + [k] + order[i + 1..]
      && Unedited(order[..i + 1], m) == (if m[k].editing then u else u + [k])
  {
    hide Distinct, Edited, Unedited, Without;
    TakeStep(order, m, i + 1);
    EditedMembers(order[..i], m);
    DropFirst(Unedited(order[..i], m), order, i);
  }

  lemma DropFirst(u: seq<string>, order: seq<string>, i: nat)
    requires Distinct(order) && i < |order| && order[i] !in u
    ensures Without(u + order[i..], order[i]) == u + order[i + 1..] && u + order[i..] == u + [order[i]] + order[i + 1..]
  {
    var k, rest := order[i], order[i + 1..];
    assert order[i..] == [k] + rest;
    assert k !in rest;
    RoundWithout(u, k, rest);
    Assoc(u, [k], rest);
  }

  lemma RoundWithout(u: seq<string>, k: string, rest: seq<string>)
    requires k !in u && k !in rest
    ensures Without(u + ([k] + rest), k) == u + rest
  {
    WithoutConcat(u, [k] + rest, k);
    WithoutMembers(u, k);
    WithoutMembers(rest, k);
    assert ([k] + rest)[1..] == rest;
  }

  /** Changing the slot of a key that is there. */
  lemma SlotReplaced(order: seq<string>, m: Slots, m1: Slots, key: string, m2: Slots, valueCount: nat)
    requires m1 == m[key := SlotOr(m, key, valueCount)] && Lists(order, m1) && key in m2
    requires Sized(m1, valueCount) && |m2[key].lengths| == valueCount && m2 == m1[key := m2[key]]
    ensures Lists(order, m2) && Sized(m2, valueCount) && m2 == m[key := m2[key]]
  {
  }

  /** The order, the size and the entries of an opened cache. */
  lemma OpenedOrdered(order: seq<string>, m: Slots)
    requires Lists(order, m)
    ensures var u := Unedited(order, m); Lists(u, Cleaned(m)) && Total(u, Cleaned(m)) == Total(u, m)
  {
    var u := Unedited(order, m);
    EditedMembers(order, m);
    UneditedDistinct(order, m);
    TotalSame(u, Cleaned(m), m);
  }

  lemma {:induction false} UneditedDistinct(order: seq<string>, m: Slots)
    requires Distinct(order)
    ensures Distinct(Unedited(order, m))
  {
    if order != [] {
      UneditedDistinct(order[..|order| - 1], m);
      EditedMembers(order[..|order| - 1], m);
    }
  }

  /** The text is the journal of these records, and perhaps the beginning of one more line. */
  ghost predicate OwnText(text: string, log: seq<Record>, base: nat, c: Config) {
    text == JournalOf(log, c.appVersion, c.valueCount) + Rest(text) && Recoverable(log, c) && base <= |log|
  }

  /** Opening gives the state of the run's crash step, with the rebuild in the order of the records. */
  ghost predicate RestartsFrom(log: seq<Record>, broken: bool, base: nat, s: State, c: Config) {
    Lists(ReplayOrder(log), Replay(log, c.valueCount)) && s == Reopened(log, broken, ReplayOrder(log), base, c)
  }

  /** After a crash at any moment of a run, opening finds a journal of this kind, or a corrupt one if not
      even the header is left. */
  lemma CrashedFound(states: seq<State>, steps: seq<Step>, c: Config, i: nat, cut: nat, d: Disk) returns (m: nat)
    requires Run(states, steps, c) && i <= |steps| && cut <= |Text(states[i], c)|
    requires Surviving(d) == Some(Text(states[i], c)[..cut])
    ensures cut < |Header(c.appVersion, c.valueCount)| ==> FoundLog(d, c) == None
    ensures |Header(c.appVersion, c.valueCount)| <= cut ==>
      && m <= |states[i].log| && (states[i].base <= m <==> |RebuiltText(states[i], c)| <= cut)
      && FoundLog(d, c) == Some(states[i].log[..m])
      && OwnText(Surviving(d).value, states[i].log[..m], Min(states[i].base, m), c)
  {
    RunKeepsInv(states, steps, c, i);
    if cut < |Header(c.appVersion, c.valueCount)| {
      HeaderCut(states[i].log, cut, c.appVersion, c.valueCount);
      m := 0;
    } else {
      m := CrashKeeps(states[i], cut, c);
      var (r, order) := LastRebuild(states, steps, c, i);
      FallBack(states, i, r, order, m, c);
    }
  }

  /** What a cache leaves on the disk, the next one takes for its own. */
  lemma OwnFound(s: State, d: Disk, c: Config)
    requires Inv(s, c) && Surviving(d) == Some(Text(s, c))
    ensures FoundLog(d, c) == Some(s.log) && OwnText(Surviving(d).value, s.log, s.base, c) && Rest(Surviving(d).value) == ""
    ensures CleanMap(Cleaned(Replay(s.log, c.valueCount))) == CleanMap(s.slots)
  {
    hide JournalOf, ReadBack, Rest;
    JournalReadBack(s.log, "", c.appVersion, c.valueCount);
    assert Text(s, c) + "" == Text(s, c);
    AgreeClean(Replay(s.log, c.valueCount), s.slots);
    CleanedClean(Replay(s.log, c.valueCount));
  }

  /** Opening at any of these moments would have found the clean map of `d`. */
  ghost predicate SameClean(seen: seq<Disk>, from: nat, d: Disk, c: Config) {
    forall i :: from <= i < |seen| ==> CleanAfterOpen(seen[i], c) == CleanAfterOpen(d, c)
  }

  /** A crash while opening loses nothing either. */
  ghost predicate SafelyOpened(seen: seq<Disk>, from: nat, d: Disk, base0: nat, c: Config) {
    match FoundLog(d, c)
    case None => SameClean(seen, from, d, c)
    case Some(log) => OwnText(Surviving(d).value, log, base0, c) ==> SameClean(seen, from, d, c)
  }

  lemma SafelyRestored(seen: seq<Disk>, seen': seq<Disk>, from: nat, d: Disk, d': Disk, base0: nat, c: Config)
    requires Between(seen, from, Surviving(d), Surviving(d)) && Surviving(d') == Surviving(d)
    requires seen <= seen' && SafelyOpened(seen', |seen|, d', base0, c)
    ensures SafelyOpened(seen', from, d, base0, c)
  {
    hide ReadBack, OwnText, Replay;
    forall i | from <= i < |seen'|
      ensures i < |seen| ==> CleanAfterOpen(seen'[i], c) == CleanAfterOpen(d, c)
      ensures i >= |seen| && SameClean(seen', |seen|, d', c) ==> CleanAfterOpen(seen'[i], c) == CleanAfterOpen(d, c)
    {
      if i < |seen| {
        assert seen'[i] == seen[i];
      }
    }
  }

  lemma CorruptEmptied(seen: seq<Disk>, seen': seq<Disk>, d: Disk, d': Disk, base0: nat, c: Config)
    requires seen' != [] && FoundLog(d, c) == None && |seen| < |seen'| && seen'[|seen|] == d' && d'.journal == d'.backup == None
    requires CleanAfterOpen(d', c) == map[] ==> SameClean(seen', |seen| + 1, d', c)
    ensures SafelyOpened(seen', |seen|, d, base0, c)
  {
    hide ReadBack, Replay;
  }

  lemma FoundSame(d: Disk, d': Disk, c: Config)
    requires Surviving(d) == Surviving(d')
    ensures FoundLog(d, c) == FoundLog(d', c)
  {
  }

  lemma NothingFound(d: Disk, c: Config)
    requires Surviving(d) == None
    ensures FoundLog(d, c) == None && CleanAfterOpen(d, c) == map[]
  {
  }

  lemma EmptySound(c: Config)
    requires LegalConfig(c)
    ensures Sound(State(map[], [], 0), [], 0, c) && Lists([], map[]) && CompactLog([], map[]) == []
  {
  }

  lemma EmptyClean(seen: seq<Disk>, from: nat, d: Disk, c: Config)
    requires LegalConfig(c) && CleanAfterOpen(d, c) == map[] && Between(seen, from, Surviving(d), Some(Rebuilt([], map[], c)))
    ensures SameClean(seen, from, d, c)
  {
    EmptySound(c);
    forall i | from <= i < |seen|
      ensures CleanAfterOpen(seen[i], c) == map[]
    {
      RebuildAtomic([], State(map[], [], 0), d, seen[i], c);
    }
  }

  /** The state of the cache between reading the journal and processing it. */
  lemma WrittenStarts(text: string, log: seq<Record>, base0: nat, s1: State, c: Config)
    requires OwnText(text, log, base0, c) && s1.slots == Replay(log, c.valueCount) && Lists(ReplayOrder(log), s1.slots)
    requires s1.log == (if Rest(text) == "" then log else CompactLog(ReplayOrder(log), s1.slots))
    requires s1.base == (if Rest(text) == "" then base0 else |ReplayOrder(log)|)
    ensures Recoverable(log, c) && base0 <= |log|
    ensures State(Cleaned(s1.slots), s1.log, s1.base) == Reopened(log, Rest(text) != "", ReplayOrder(log), base0, c)
    ensures RestartsFrom(log, Rest(text) != "", base0, State(Cleaned(s1.slots), s1.log, s1.base), c)
    ensures Rest(text) == "" ==> text == JournalOf(s1.log, c.appVersion, c.valueCount)
  {
    hide JournalOf, Recoverable, Replay, ReplayOrder, Rest, Lists;
    assert JournalOf(log, c.appVersion, c.valueCount) + "" == JournalOf(log, c.appVersion, c.valueCount);
  }

  lemma RestartSound(log: seq<Record>, broken: bool, base: nat, c: Config)
    requires LegalConfig(c) && Recoverable(log, c) && base <= |log| && Lists(ReplayOrder(log), Replay(log, c.valueCount))
    ensures var s, u := Reopened(log, broken, ReplayOrder(log), base, c), Unedited(ReplayOrder(log), Replay(log, c.valueCount));
      Sound(s, u, Total(u, s.slots), c)
  {
    ReopenedInv(log, broken, ReplayOrder(log), base, c);
    ReplayLegal(log, c);
    OpenedOrdered(ReplayOrder(log), Replay(log, c.valueCount));
  }

  lemma RestartClean(log: seq<Record>, d0: Disk, d1: Disk, seen: seq<Disk>, seen1: seq<Disk>, from: nat, order: seq<string>, m: Slots, c: Config)
    requires LegalConfig(c) && Recoverable(log, c) && m == Replay(log, c.valueCount) && Lists(order, m)
    requires FoundLog(d0, c) == Some(log)
    requires Between(seen1, from, Surviving(d0), Some(Rebuilt(order, m, c)))
    requires Surviving(d1) == Surviving(d0) || Surviving(d1) == Some(Rebuilt(order, m, c))
    requires seen1 <= seen && Between(seen, |seen1|, Surviving(d1), Surviving(d1))
    ensures SameClean(seen, from, d0, c)
  {
    hide JournalOf, ReadBack, Replay, Rebuilt;
    ReplayLegal(log, c);
    forall i | from <= i < |seen|
      ensures CleanAfterOpen(seen[i], c) == CleanAfterOpen(d0, c)
    {
      if Surviving(seen[i]) != Surviving(d0) {
        assert Surviving(seen[i]) == Some(Rebuilt(order, m, c));
        RebuiltFound(order, m, seen[i], c);
      }
    }
  }

  lemma RebuiltFound(order: seq<string>, m: Slots, d: Disk, c: Config)
    requires LegalConfig(c) && Lists(order, m)
    requires forall k :: k in m ==> LegalKey(k) && LegalLengths(m[k].lengths, c) && (m[k].editing || m[k].readable)
    requires Surviving(d) == Some(Rebuilt(order, m, c))
    ensures CleanAfterOpen(d, c) == CleanMap(m)
  {
    RebuiltReads(order, m, d, c);
  }

  /** The records that opening finds; None where there is no journal, or a corrupt one. */
  function FoundLog(d: Disk, c: Config): Option<seq<Record>> {
    if Surviving(d) == None then None else ReadBack(Surviving(d).value, c.appVersion, c.valueCount)
  }

  lemma JournalAppend(log: seq<Record>, r: Record, c: Config)
    ensures JournalOf(log + [r], c.appVersion, c.valueCount) == JournalOf(log, c.appVersion, c.valueCount) + (Line(r) + [LF])
  {
    UnlinesAppend(log, r);
  }

  lemma {:induction false} UnlinesAppend(log: seq<Record>, r: Record)
    ensures Unlines(LinesOf(log + [r])) == Unlines(LinesOf(log)) + (Line(r) + [LF])
  {
    hide Line;
    if log == [] {
      assert log + [r] == [r];
      assert LinesOf([r]) == [Line(r)] + [];
    } else {
      UnlinesAppend(log[1..], r);
      assert (log + [r])[1..] == log[1..] + [r];
      assert LinesOf(log + [r]) == [Line(log[0])] + LinesOf(log[1..] + [r]);
    }
  }

  /** The text that a rebuild writes. */
  function Rebuilt(order: seq<string>, m: Slots, c: Config): string
    requires forall k :: k in order ==> k in m
  {
    JournalOf(CompactLog(order, m), c.appVersion, c.valueCount)
  }

  lemma RebuiltStart(order: seq<string>, m: Slots, c: Config)
    requires forall k :: k in order ==> k in m
    ensures Rebuilt(order[..0], m, c) == "" + Header(c.appVersion, c.valueCount)
  {
  }

  lemma RebuiltNext(order: seq<string>, m: Slots, c: Config, i: nat)
    requires Lists(order, m) && i < |order|
    ensures order[i] in m
    ensures Rebuilt(order[..i + 1], m, c) == Rebuilt(order[..i], m, c) + (Line(CompactRecord(order[i], m[order[i]])) + [LF])
  {
    assert order[..i + 1][..i] == order[..i];
    JournalAppend(CompactLog(order[..i], m), CompactRecord(order[i], m[order[i]]), c);
  }
}
