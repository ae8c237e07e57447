/** Every run of the cache: the live entries against the journal written so far, and against what
    is recovered after a crash. */
module JournalRun {
  import opened Basics
  import opened JournalText
  import opened LineReader
  import opened Journal

  /** `base` is the number of records the last rebuild put in the journal. */
  datatype State = State(slots: Slots, log: seq<Record>, base: nat)

  datatype Step =
    | Edit(key: string)
    | Commit(key: string, lengths: seq<int>)
    | Abort(key: string)
    | Get(key: string)
    | Drop(key: string)
    | Compact(order: seq<string>)
    | Crash(cut: nat, order: seq<string>)

  /** The two numbers in the header. */
  datatype Config = Config(appVersion: int, valueCount: nat)

  predicate LegalConfig(c: Config) {
    Long(c.appVersion) && 0 < c.valueCount && Long(c.valueCount)
  }

  predicate Editing(m: Slots, key: string) {
    key in m && m[key].editing
  }

  /** `order` lists every key once. */
  ghost predicate Lists(order: seq<string>, m: Slots) {
    (forall k :: k in order <==> k in m) && forall i, j :: 0 <= i < j < |order| ==> order[i] != order[j]
  }

  function CompactRecord(key: string, slot: Slot): Record {
    if slot.editing then Dirty(key) else Clean(key, slot.lengths)
  }

  /** What rebuildJournal writes. */
  function CompactLog(order: seq<string>, m: Slots): (log: seq<Record>)
    requires forall k :: k in order ==> k in m
    ensures |log| == |order|
  {
    if order == [] then [] else
      var n := |order| - 1;
      CompactLog(order[..n], m) + [CompactRecord(order[n], m[order[n]])]
  }

  predicate LegalLengths(ls: seq<int>, c: Config) {
    |ls| == c.valueCount && forall i :: 0 <= i < |ls| ==> FileLength(ls[i])
  }

  // ----- one step -----

  /** When the call takes effect; otherwise it returns null or false, or throws. */
  ghost predicate Enabled(s: State, step: Step, c: Config) {
    match step
    case Edit(k) => LegalKey(k) && !Editing(s.slots, k)
    case Commit(k, ls) => Editing(s.slots, k) && LegalLengths(ls, c)
    case Abort(k) => Editing(s.slots, k)
    case Get(k) => k in s.slots && s.slots[k].readable
    case Drop(k) => k in s.slots && !s.slots[k].editing
    case Compact(order) => Lists(order, s.slots)
    case Crash(cut, order) =>
      && cut <= |Text(s, c)|
      && var log' := ReadBack(Text(s, c)[..cut], c.appVersion, c.valueCount);
         log'.Some? && Rest(Text(s, c)[..cut]) != "" ==> Lists(order, Replay(log'.value, c.valueCount))
  }

  function Text(s: State, c: Config): string {
    JournalOf(s.log, c.appVersion, c.valueCount)
  }

  /** The part of the journal that the last rebuild wrote. */
  function RebuiltText(s: State, c: Config): string {
    JournalOf(if s.base <= |s.log| then s.log[..s.base] else s.log, c.appVersion, c.valueCount)
  }

  /** The cache right after opening on the records `log'`. */
  function Reopened(log': seq<Record>, broken: bool, order: seq<string>, base: nat, c: Config): State
    requires broken ==> Lists(order, Replay(log', c.valueCount))
  {
    var m := Replay(log', c.valueCount);
    if broken then State(Cleaned(m), CompactLog(order, m), |order|) else State(Cleaned(m), log', base)
  }

  /** The next state. A crash keeps `cut` bytes of the journal and opens the cache again: a corrupt
      journal means an empty cache, a broken last line means that the journal is rebuilt. */
  function Do(s: State, step: Step, c: Config): State
    requires Enabled(s, step, c)
  {
    match step
    case Edit(k) => State(s.slots[k := SlotOr(s.slots, k, c.valueCount).(editing := true)], s.log + [Dirty(k)], s.base)
    case Commit(k, ls) => State(s.slots[k := Slot(true, false, ls)], s.log + [Clean(k, ls)], s.base)
    case Abort(k) =>
      if s.slots[k].readable
      then State(s.slots[k := s.slots[k].(editing := false)], s.log + [Clean(k, s.slots[k].lengths)], s.base)
      else State(s.slots - {k}, s.log + [Remove(k)], s.base)
    case Get(k) => s.(log := s.log + [Read(k)])
    case Drop(k) => State(s.slots - {k}, s.log + [Remove(k)], s.base)
    case Compact(order) => State(s.slots, CompactLog(order, s.slots), |order|)
    case Crash(cut, order) =>
      match ReadBack(Text(s, c)[..cut], c.appVersion, c.valueCount)
      case None => State(map[], [], 0)
      case Some(log') => Reopened(log', Rest(Text(s, c)[..cut]) != "", order, Min(s.base, |log'|), c)
  }

  /** The call takes effect and leads from `s` to `s'`. */
  ghost predicate Takes(s: State, step: Step, s': State, c: Config) {
    Enabled(s, step, c) && s' == Do(s, step, c)
  }

  // ----- the invariant -----

  /** The replayed journal and the live entries say the same of every entry without an editor;
      entries under edit are under edit in the journal, which may also hold edits that a crash cut off. */
  ghost predicate Agree(r: Slots, live: Slots) {
    && (forall k :: k in live ==> k in r && r[k].editing == live[k].editing && (live[k].editing || (r[k] == live[k] && live[k].readable)))
    && (forall k :: k in r && !r[k].editing ==> k in live)
  }

  ghost predicate Inv(s: State, c: Config) {
    && LegalConfig(c) && LegalLog(s.log, c.valueCount) && s.base <= |s.log|
    && (forall k :: k in s.slots ==> LegalKey(k) && LegalLengths(s.slots[k].lengths, c))
    && Agree(Replay(s.log, c.valueCount), s.slots)
  }

  lemma AgreeClean(r: Slots, live: Slots)
    requires Agree(r, live)
    ensures CleanMap(r) == CleanMap(live) && Cleaned(r) == Cleaned(live)
  {
  }

  lemma ReplayStep(log: seq<Record>, r: Record, valueCount: nat)
    ensures Replay(log + [r], valueCount) == Apply(Replay(log, valueCount), r, valueCount)
  {
    assert (log + [r])[..|log|] == log;
  }

  lemma {:induction false} ReplayLegal(log: seq<Record>, c: Config)
    requires LegalConfig(c) && LegalLog(log, c.valueCount)
    ensures var m := Replay(log, c.valueCount); forall k :: k in m ==> LegalKey(k) && LegalLengths(m[k].lengths, c)
  {
    if log != [] {
      ReplayLegal(log[..|log| - 1], c);
    }
  }

  function CompactSlot(slot: Slot, valueCount: nat): Slot {
    if slot.editing then FreshSlot(valueCount).(editing := true) else Slot(true, false, slot.lengths)
  }

  function CompactSlots(keys: seq<string>, m: Slots, valueCount: nat): Slots
    requires forall k :: k in keys ==> k in m
  {
    map k | k in keys :: CompactSlot(m[k], valueCount)
  }

  lemma CompactSlotsStep(keys: seq<string>, key: string, m: Slots, valueCount: nat)
    requires (forall k :: k in keys ==> k in m) && key in m && key !in keys
    ensures CompactSlots(keys + [key], m, valueCount) == Apply(CompactSlots(keys, m, valueCount), CompactRecord(key, m[key]), valueCount)
  {
    assert forall k :: k in keys + [key] <==> k in keys || k == key;
  }

  /** Replaying a rebuilt journal. */
  lemma {:induction false} ReplayCompact(order: seq<string>, m: Slots, valueCount: nat)
    requires forall k :: k in order ==> k in m
    requires forall i, j :: 0 <= i < j < |order| ==> order[i] != order[j]
    ensures Replay(CompactLog(order, m), valueCount) == CompactSlots(order, m, valueCount)
  {
    if order == [] {
      assert CompactSlots([], m, valueCount) == map[];
    } else {
      var n := |order| - 1;
      ReplayCompact(order[..n], m, valueCount);
      ReplayStep(CompactLog(order[..n], m), CompactRecord(order[n], m[order[n]]), valueCount);
      assert order == order[..n] + [order[n]];
      CompactSlotsStep(order[..n], order[n], m, valueCount);
    }
  }

  lemma {:induction false} CompactPrefix(order: seq<string>, m: Slots, n: nat)
    requires n <= |order| && forall k :: k in order ==> k in m
    ensures CompactLog(order, m)[..n] == CompactLog(order[..n], m)
    ensures n < |order| ==> CompactLog(order, m)[n] == CompactRecord(order[n], m[order[n]])
  {
    if order != [] {
      var k := |order| - 1;
      CompactPrefix(order[..k], m, if n <= k then n else k);
      assert n <= k ==> order[..k][..n] == order[..n];
      assert order[..|order|] == order;
    }
  }

  lemma CompactAgrees(order: seq<string>, m: Slots, valueCount: nat)
    requires Lists(order, m) && forall k :: k in m && !m[k].editing ==> m[k].readable
    ensures Agree(Replay(CompactLog(order, m), valueCount), m)
    ensures Agree(Replay(CompactLog(order, m), valueCount), Cleaned(m))
  {
    ReplayCompact(order, m, valueCount);
  }

  function Restricted(m: Slots, keys: seq<string>): Slots {
    map k | k in m && k in keys :: m[k]
  }

  lemma CompactClean(keys: seq<string>, m: Slots, valueCount: nat)
    requires forall k :: k in keys ==> k in m
    ensures CleanMap(CompactSlots(keys, m, valueCount)) == CleanMap(Restricted(m, keys))
  {
  }

  /** The first records of a rebuilt journal stand for the first entries of the rebuild's order. */
  lemma TruncatedRebuild(order: seq<string>, m: Slots, valueCount: nat, n: nat)
    requires Rebuildable(order, m) && n <= |order|
    ensures var r := Replay(CompactLog(order, m)[..n], valueCount);
      CleanMap(r) == CleanMap(Restricted(m, order[..n])) && forall k :: k in r && !r[k].editing ==> r[k].readable
  {
    CompactPrefix(order, m, n);
    ReplayCompact(order[..n], m, valueCount);
    CompactClean(order[..n], m, valueCount);
  }

  /** `order` lists entries of `m`, each at most once. */
  ghost predicate Rebuildable(order: seq<string>, m: Slots) {
    (forall k :: k in order ==> k in m) && forall i, j :: 0 <= i < j < |order| ==> order[i] != order[j]
  }

  /** The first `base` records are what a rebuild in this order has written, when the clean map was that
      of `slots`. */
  ghost predicate FromRebuild(log: seq<Record>, base: nat, order: seq<string>, slots: Slots) {
    exists m: Slots :: RebuildOf(log, base, order, slots, m)
  }

  ghost predicate RebuildOf(log: seq<Record>, base: nat, order: seq<string>, slots: Slots, m: Slots) {
    && |order| == base <= |log| && Rebuildable(order, m) && CleanMap(m) == CleanMap(slots)
    && log[..base] == CompactLog(order, m)
  }

  lemma RestrictedClean(m: Slots, m': Slots, keys: seq<string>)
    requires CleanMap(m) == CleanMap(m')
    ensures CleanMap(Restricted(m, keys)) == CleanMap(Restricted(m', keys))
  {
    var a, b := CleanMap(Restricted(m, keys)), CleanMap(Restricted(m', keys));
    assert forall k :: k in a <==> k in CleanMap(m) && k in keys;
    assert forall k :: k in b <==> k in CleanMap(m') && k in keys;
    assert forall k :: k in a ==> a[k] == CleanMap(m)[k];
    assert forall k :: k in b ==> b[k] == CleanMap(m')[k];
  }

  /** What is left of the rebuilt part after `n` records. */
  lemma RebuildCut(log: seq<Record>, base: nat, order: seq<string>, slots: Slots, n: nat, c: Config)
    requires FromRebuild(log, base, order, slots) && n <= base && LegalLog(log, c.valueCount)
    ensures |order| == base && FromRebuild(log[..n], n, order[..n], slots) && Recoverable(log[..n], c)
    ensures CleanMap(Replay(log[..n], c.valueCount)) == CleanMap(Restricted(slots, order[..n]))
  {
    var m: Slots :| RebuildOf(log, base, order, slots, m);
    assert log[..base][..n] == log[..n];
    CompactPrefix(order, m, n);
    TruncatedRebuild(order, m, c.valueCount, n);
    RestrictedClean(m, slots, order[..n]);
    assert log[..n][..n] == log[..n];
    assert RebuildOf(log[..n], n, order[..n], slots, m);
  }

  /** The records are what the cache writes, and every entry that is not under edit was published. */
  ghost predicate Recoverable(log: seq<Record>, c: Config) {
    LegalLog(log, c.valueCount) && forall k :: k in Replay(log, c.valueCount) && !Replay(log, c.valueCount)[k].editing ==>
      Replay(log, c.valueCount)[k].readable
  }

  // ----- runs -----

  /** A crash loses a suffix of the records; more than was written since the last rebuild only if the
      cut is inside the rebuilt text. */
  lemma CrashKeeps(s: State, cut: nat, c: Config) returns (m: nat)
    requires Inv(s, c) && |Header(c.appVersion, c.valueCount)| <= cut <= |Text(s, c)|
    ensures m <= |s.log| && (s.base <= m <==> |RebuiltText(s, c)| <= cut)
    ensures ReadBack(Text(s, c)[..cut], c.appVersion, c.valueCount) == Some(s.log[..m])
    ensures Text(s, c)[..cut] == JournalOf(s.log[..m], c.appVersion, c.valueCount) + Rest(Text(s, c)[..cut])
  {
    var part;
    m, part := JournalCut(s.log, cut, c.appVersion, c.valueCount);
    JournalReadBack(s.log[..m], part, c.appVersion, c.valueCount);
    if m < s.base {
      JournalLonger(s.log, m + 1, s.base, c);
    } else {
      JournalLonger(s.log, s.base, m, c);
    }
  }

  lemma JournalLonger(log: seq<Record>, m: nat, n: nat, c: Config)
    requires m <= n <= |log|
    ensures |JournalOf(log[..m], c.appVersion, c.valueCount)| <= |JournalOf(log[..n], c.appVersion, c.valueCount)|
  {
    assert log[..m] + log[m..n] == log[..n];
    UnlinesLonger(log[..m], log[m..n]);
  }

  lemma {:induction false} UnlinesLonger(a: seq<Record>, b: seq<Record>)
    ensures |Unlines(LinesOf(a))| <= |Unlines(LinesOf(a + b))|
  {
    if a != [] {
      UnlinesLonger(a[1..], b);
      assert (a + b)[1..] == a[1..] + b;
    }
  }

  /** The record that a call appends, if it is not a rebuild or a crash. */
  function Written(s: State, step: Step): Record
    requires !step.Compact? && !step.Crash? && (step.Abort? ==> step.key in s.slots)
  {
    match step
    case Edit(k) => Dirty(k)
    case Commit(k, ls) => Clean(k, ls)
    case Abort(k) => if s.slots[k].readable then Clean(k, s.slots[k].lengths) else Remove(k)
    case Get(k) => Read(k)
    case _ => Remove(step.key)
  }

  lemma WrittenAgrees(s: State, step: Step, c: Config, r: Slots)
    requires Enabled(s, step, c) && !step.Compact? && !step.Crash? && Agree(r, s.slots)
    ensures Agree(Apply(r, Written(s, step), c.valueCount), Do(s, step, c).slots)
  {
  }

  lemma WrittenLegal(s: State, step: Step, c: Config)
    requires Inv(s, c) && Enabled(s, step, c) && !step.Compact? && !step.Crash?
    ensures LegalRecord(Written(s, step), c.valueCount)
    ensures Do(s, step, c).log == s.log + [Written(s, step)] && Do(s, step, c).base == s.base
    ensures forall k :: k in Do(s, step, c).slots ==> LegalKey(k) && LegalLengths(Do(s, step, c).slots[k].lengths, c)
  {
  }

  lemma CompactLegal(order: seq<string>, m: Slots, c: Config)
    requires LegalConfig(c) && Lists(order, m) && forall k :: k in m ==> LegalKey(k) && LegalLengths(m[k].lengths, c)
    ensures LegalLog(CompactLog(order, m), c.valueCount)
  {
    CompactPrefix(order, m, 0);
    forall i | 0 <= i < |order|
      ensures LegalRecord(CompactLog(order, m)[i], c.valueCount)
    {
      CompactPrefix(order, m, i);
    }
  }

  /** Every call and every rebuild keeps the invariant. */
  lemma StepInv(s: State, step: Step, c: Config)
    requires Inv(s, c) && Enabled(s, step, c) && !step.Crash?
    ensures Inv(Do(s, step, c), c)
  {
    if step.Compact? {
      CompactLegal(step.order, s.slots, c);
      CompactAgrees(step.order, s.slots, c.valueCount);
    } else {
      var r := Written(s, step);
      WrittenLegal(s, step, c);
      WrittenAgrees(s, step, c, Replay(s.log, c.valueCount));
      ReplayStep(s.log, r, c.valueCount);
    }
  }

  /** A run: the states of all moments, oldest first, with the step between each two. */
  ghost predicate Run(states: seq<State>, steps: seq<Step>, c: Config) {
    && LegalConfig(c) && |states| == |steps| + 1 && states[0] == State(map[], [], 0)
    && forall i :: 0 <= i < |steps| ==> Enabled(states[i], steps[i], c) && states[i + 1] == Do(states[i], steps[i], c)
  }

  /** The moment after the last rebuild, and the entries in the order in which the rebuilt part of the
      journal has them. A crash inside that part keeps the first of them; a corrupt journal counts as the
      rebuild of an empty cache. */
  ghost function LastRebuild(states: seq<State>, steps: seq<Step>, c: Config, i: nat): (nat, seq<string>)
    requires i <= |steps| && |states| == |steps| + 1
  {
    if i == 0 then (0, []) else
      var (r, order) := LastRebuild(states, steps, c, i - 1);
      match steps[i - 1]
      case Compact(order') => (i, order')
      case Crash(cut, order') =>
        var text := if cut <= |Text(states[i - 1], c)| then Text(states[i - 1], c)[..cut] else "";
        (match ReadBack(text, c.appVersion, c.valueCount)
         case None => (i, [])
         case Some(log') =>
           if Rest(text) != "" then (i, order') else (r, if |log'| < |order| then order[..|log'|] else order))
      case _ => (r, order)
  }

  /** At some moment up to `i`, the live entries were the ones that `log` replays to. */
  ghost predicate Remembered(states: seq<State>, i: nat, log: seq<Record>, c: Config) {
    exists j :: 0 <= j <= i && j < |states| && Inv(states[j], c) && Agree(Replay(log, c.valueCount), states[j].slots)
  }

  /** Every prefix of the journal, from the last rebuild on, was the journal of an earlier moment. */
  ghost predicate RunInv(states: seq<State>, i: nat, c: Config)
    requires i < |states|
  {
    var s := states[i];
    Inv(s, c) && forall m :: s.base <= m <= |s.log| ==> Remembered(states, i, s.log[..m], c)
  }

  /** The rebuilt part of the journal stands for the entries of the last rebuild. */
  ghost predicate RebuildInv(states: seq<State>, i: nat, r: nat, order: seq<string>)
    requires i < |states|
  {
    r <= i && FromRebuild(states[i].log, states[i].base, order, states[r].slots)
  }

  ghost predicate RebuildKnown(states: seq<State>, steps: seq<Step>, c: Config, i: nat)
    requires i <= |steps| && |states| == |steps| + 1
  {
    var (r, order) := LastRebuild(states, steps, c, i);
    RebuildInv(states, i, r, order)
  }

  lemma RememberedLater(states: seq<State>, i: nat, log: seq<Record>, c: Config)
    requires Remembered(states, i, log, c)
    ensures Remembered(states, i + 1, log, c)
  {
  }

  lemma NowRemembered(states: seq<State>, i: nat, c: Config)
    requires i < |states| && Inv(states[i], c)
    ensures Remembered(states, i, states[i].log[..|states[i].log|], c)
  {
    assert states[i].log[..|states[i].log|] == states[i].log;
  }

  /** The step keeps `k` records and appends at most one, or rebuilds the journal. */
  lemma StepRemembered(states: seq<State>, i: nat, k: nat, c: Config)
    requires i + 1 < |states| && RunInv(states, i, c) && Inv(states[i + 1], c)
    requires var s, s' := states[i], states[i + 1];
      s'.base == |s'.log| || (s'.base == s.base <= k <= |s.log| && k <= |s'.log| <= k + 1 && s'.log[..k] == s.log[..k])
    ensures RunInv(states, i + 1, c)
  {
    var s, s' := states[i], states[i + 1];
    forall m: nat | s'.base <= m <= |s'.log|
      ensures Remembered(states, i + 1, s'.log[..m], c)
    {
      if m == |s'.log| {
        NowRemembered(states, i + 1, c);
      } else {
        PrefixOfPrefix(s.log, s'.log, k, m);
        RememberedLater(states, i, s.log[..m], c);
      }
    }
  }

  lemma PrefixOfPrefix<T>(a: seq<T>, b: seq<T>, k: nat, m: nat)
    requires m <= k <= |a| && k <= |b| && a[..k] == b[..k]
    ensures a[..m] == b[..m]
  {
    assert a[..k][..m] == a[..m] && b[..k][..m] == b[..m];
  }

  lemma CallRemembered(states: seq<State>, i: nat, step: Step, c: Config)
    requires i + 1 < |states| && RunInv(states, i, c) && Enabled(states[i], step, c) && states[i + 1] == Do(states[i], step, c) && !step.Crash?
    ensures RunInv(states, i + 1, c)
  {
    StepInv(states[i], step, c);
    if !step.Compact? {
      WrittenLegal(states[i], step, c);
    }
    StepRemembered(states, i, |states[i].log|, c);
  }

  /** What a prefix of the journal replays to is as good as live once the edits are dropped. */
  lemma FallBack(states: seq<State>, i: nat, r: nat, order: seq<string>, m: nat, c: Config)
    requires i < |states| && RunInv(states, i, c) && RebuildInv(states, i, r, order) && m <= |states[i].log|
    ensures Recoverable(states[i].log[..m], c)
  {
    var s := states[i];
    if m < s.base {
      RebuildCut(s.log, s.base, order, states[r].slots, m, c);
    } else {
      assert Remembered(states, i, s.log[..m], c);
    }
  }

  lemma ReopenedInv(log': seq<Record>, broken: bool, order: seq<string>, base: nat, c: Config)
    requires LegalConfig(c) && Recoverable(log', c) && base <= |log'|
    requires broken ==> Lists(order, Replay(log', c.valueCount))
    ensures Inv(Reopened(log', broken, order, base, c), c)
  {
    var r := Replay(log', c.valueCount);
    ReplayLegal(log', c);
    if broken {
      CompactLegal(order, r, c);
      CompactAgrees(order, r, c.valueCount);
    }
  }

  /** Opening after a crash: the entries are those of the moment the journal falls back to, or what is
      left of the last rebuild. */
  lemma CrashRemembered(states: seq<State>, i: nat, r: nat, order: seq<string>, step: Step, c: Config) returns (m: nat)
    requires i + 1 < |states| && RunInv(states, i, c) && RebuildInv(states, i, r, order)
    requires Enabled(states[i], step, c) && states[i + 1] == Do(states[i], step, c)
    requires step.Crash? && |Header(c.appVersion, c.valueCount)| <= step.cut
    ensures RunInv(states, i + 1, c)
    ensures m <= |states[i].log| && ReadBack(Text(states[i], c)[..step.cut], c.appVersion, c.valueCount) == Some(states[i].log[..m])
  {
    var s := states[i];
    m := CrashKeeps(s, step.cut, c);
    FallBack(states, i, r, order, m, c);
    hide JournalOf, ReadBack, Rest;
    ReopenedInv(s.log[..m], Rest(Text(s, c)[..step.cut]) != "", step.order, Min(s.base, m), c);
    assert s.log[..m][..m] == s.log[..m];
    StepRemembered(states, i, m, c);
  }

  /** A cut inside the header: the journal is corrupt, and the cache starts empty. */
  lemma CorruptRemembered(states: seq<State>, i: nat, step: Step, c: Config)
    requires i + 1 < |states| && RunInv(states, i, c) && Enabled(states[i], step, c) && states[i + 1] == Do(states[i], step, c)
    requires step.Crash? && step.cut < |Header(c.appVersion, c.valueCount)|
    ensures ReadBack(Text(states[i], c)[..step.cut], c.appVersion, c.valueCount) == None
    ensures RunInv(states, i + 1, c) && states[i + 1] == State(map[], [], 0)
  {
    HeaderCut(states[i].log, step.cut, c.appVersion, c.valueCount);
    hide JournalOf, ReadBack;
    assert Replay([], c.valueCount) == map[];
    StepRemembered(states, i, 0, c);
  }

  lemma EmptyRebuild(slots: Slots)
    requires CleanMap(slots) == map[]
    ensures FromRebuild([], 0, [], slots)
  {
    assert RebuildOf([], 0, [], slots, map[]);
  }

  lemma WholeRebuild(order: seq<string>, m: Slots, slots: Slots)
    requires Rebuildable(order, m) && CleanMap(m) == CleanMap(slots)
    ensures FromRebuild(CompactLog(order, m), |order|, order, slots)
  {
    assert CompactLog(order, m)[..|order|] == CompactLog(order, m);
    assert RebuildOf(CompactLog(order, m), |order|, order, slots, m);
  }

  lemma LaterRebuild(log: seq<Record>, log': seq<Record>, base: nat, order: seq<string>, slots: Slots)
    requires FromRebuild(log, base, order, slots) && base <= |log'| && log'[..base] == log[..base]
    ensures |order| == base && FromRebuild(log', base, order, slots)
  {
    var m: Slots :| RebuildOf(log, base, order, slots, m);
    assert RebuildOf(log', base, order, slots, m);
  }

  lemma CleanedClean(m: Slots)
    ensures CleanMap(Cleaned(m)) == CleanMap(m)
  {
  }

  /** A crash that keeps `m` records. */
  lemma CrashRebuild(states: seq<State>, i: nat, r: nat, order: seq<string>, step: Step, m: nat, c: Config)
    requires i + 1 < |states| && RunInv(states, i, c) && RebuildInv(states, i, r, order)
    requires step.Crash? && Enabled(states[i], step, c) && states[i + 1] == Do(states[i], step, c)
    requires m <= |states[i].log| && ReadBack(Text(states[i], c)[..step.cut], c.appVersion, c.valueCount) == Some(states[i].log[..m])
    ensures if Rest(Text(states[i], c)[..step.cut]) != "" then RebuildInv(states, i + 1, i + 1, step.order)
            else RebuildInv(states, i + 1, r, if m < |order| then order[..m] else order)
  {
    hide JournalOf, ReadBack, Rest, FromRebuild, Remembered, Replay, Agree;
    var s, s' := states[i], states[i + 1];
    if Rest(Text(s, c)[..step.cut]) != "" {
      CleanedClean(Replay(s.log[..m], c.valueCount));
      WholeRebuild(step.order, Replay(s.log[..m], c.valueCount), s'.slots);
    } else if m < s.base {
      RebuildCut(s.log, s.base, order, states[r].slots, m, c);
    } else {
      assert s.log[..m][..s.base] == s.log[..s.base];
      LaterRebuild(s.log, s.log[..m], s.base, order, states[r].slots);
    }
  }

  lemma CallRebuild(states: seq<State>, i: nat, r: nat, order: seq<string>, step: Step, c: Config)
    requires i + 1 < |states| && RunInv(states, i, c) && RebuildInv(states, i, r, order)
    requires !step.Crash? && Enabled(states[i], step, c) && states[i + 1] == Do(states[i], step, c)
    ensures if step.Compact? then RebuildInv(states, i + 1, i + 1, step.order) else RebuildInv(states, i + 1, r, order)
  {
    var s, s' := states[i], states[i + 1];
    if step.Compact? {
      WholeRebuild(step.order, s.slots, s'.slots);
    } else {
      WrittenLegal(s, step, c);
      assert (s.log + [Written(s, step)])[..s.base] == s.log[..s.base];
      LaterRebuild(s.log, s'.log, s.base, order, states[r].slots);
    }
  }

  lemma TakenAt(states: seq<State>, steps: seq<Step>, c: Config, i: nat)
    requires Run(states, steps, c) && 0 < i <= |steps|
    ensures |states| == |steps| + 1 && Enabled(states[i - 1], steps[i - 1], c) && states[i] == Do(states[i - 1], steps[i - 1], c)
  {
    var k := i - 1;
    assert Enabled(states[k], steps[k], c);
  }

  lemma CallKeepsInv(states: seq<State>, steps: seq<Step>, c: Config, i: nat)
    requires Run(states, steps, c) && 0 < i <= |steps| && RunInv(states, i - 1, c) && RebuildKnown(states, steps, c, i - 1)
    requires !steps[i - 1].Crash?
    ensures RunInv(states, i, c) && RebuildKnown(states, steps, c, i)
  {
    hide Run, RunInv, RebuildInv, Enabled, Do;
    TakenAt(states, steps, c, i);
    var (r, order) := LastRebuild(states, steps, c, i - 1);
    CallRemembered(states, i - 1, steps[i - 1], c);
    CallRebuild(states, i - 1, r, order, steps[i - 1], c);
  }

  lemma CrashKeepsInv(states: seq<State>, steps: seq<Step>, c: Config, i: nat)
    requires Run(states, steps, c) && 0 < i <= |steps| && RunInv(states, i - 1, c) && RebuildKnown(states, steps, c, i - 1)
    requires steps[i - 1].Crash?
    ensures RunInv(states, i, c) && RebuildKnown(states, steps, c, i)
  {
    hide Run, RunInv, Do, JournalOf, ReadBack, Rest, FromRebuild;
    TakenAt(states, steps, c, i);
    var (r, order) := LastRebuild(states, steps, c, i - 1);
    if steps[i - 1].cut < |Header(c.appVersion, c.valueCount)| {
      CorruptRemembered(states, i - 1, steps[i - 1], c);
      EmptyRebuild(states[i].slots);
    } else {
      var m := CrashRemembered(states, i - 1, r, order, steps[i - 1], c);
      CrashRebuild(states, i - 1, r, order, steps[i - 1], m, c);
    }
  }

  lemma {:induction false} RunKeepsInv(states: seq<State>, steps: seq<Step>, c: Config, i: nat)
    requires Run(states, steps, c) && i <= |steps|
    ensures RunInv(states, i, c) && RebuildKnown(states, steps, c, i)
  {
    if i == 0 {
      assert Replay([], c.valueCount) == map[];
      NowRemembered(states, 0, c);
      EmptyRebuild(map[]);
    } else {
      hide RunInv, RebuildKnown;
      RunKeepsInv(states, steps, c, i - 1);
      if steps[i - 1].Crash? {
        CrashKeepsInv(states, steps, c, i);
      } else {
        CallKeepsInv(states, steps, c, i);
      }
    }
  }

  /** The replay theorem: at every moment of every run, parsing and replaying the journal text
      and dropping the entries under edit gives exactly the live clean map. */
  lemma JournalReplaysToLive(states: seq<State>, steps: seq<Step>, c: Config, i: nat)
    requires Run(states, steps, c) && i <= |steps|
    ensures ReadBack(Text(states[i], c), c.appVersion, c.valueCount) == Some(states[i].log)
    ensures CleanMap(Replay(states[i].log, c.valueCount)) == CleanMap(states[i].slots)
  {
    RunKeepsInv(states, steps, c, i);
    var s := states[i];
    JournalReadBack(s.log, "", c.appVersion, c.valueCount);
    assert Text(s, c) + "" == Text(s, c);
    AgreeClean(Replay(s.log, c.valueCount), s.slots);
  }

  // ----- truncation -----

  /** The clean map after opening the cache on this journal; a corrupt one is thrown away. */
  function Recovered(text: string, c: Config): map<string, seq<int>> {
    match ReadBack(text, c.appVersion, c.valueCount)
    case None => map[]
    case Some(log') => CleanMap(Replay(log', c.valueCount))
  }

  /** The clean map of some moment up to `i`. */
  ghost predicate Earlier(states: seq<State>, i: nat, clean: map<string, seq<int>>) {
    exists j :: 0 <= j <= i && j < |states| && clean == CleanMap(states[j].slots)
  }

  /** How many whole records are left. */
  function RecordsIn(text: string, c: Config): nat {
    match ReadBack(text, c.appVersion, c.valueCount)
    case None => 0
    case Some(log') => |log'|
  }

  /** Cutting the journal at any byte that was written since the last rebuild, and opening the cache,
      gives the clean map of this or an earlier moment of the run. */
  lemma TruncationRecovers(states: seq<State>, steps: seq<Step>, c: Config, i: nat, cut: nat)
    requires Run(states, steps, c) && i <= |steps| && |RebuiltText(states[i], c)| <= cut <= |Text(states[i], c)|
    ensures Earlier(states, i, Recovered(Text(states[i], c)[..cut], c))
  {
    RunKeepsInv(states, steps, c, i);
    var m := CrashKeeps(states[i], cut, c);
    var log' := states[i].log[..m];
    assert Remembered(states, i, log', c);
    var j :| 0 <= j <= i && j < |states| && Inv(states[j], c) && Agree(Replay(log', c.valueCount), states[j].slots);
    AgreeClean(Replay(log', c.valueCount), states[j].slots);
  }

  lemma CutInRebuild(s: State, order: seq<string>, slots: Slots, cut: nat, c: Config)
    requires Inv(s, c) && FromRebuild(s.log, s.base, order, slots)
    requires |Header(c.appVersion, c.valueCount)| <= cut < |RebuiltText(s, c)|
    ensures cut <= |Text(s, c)| && RecordsIn(Text(s, c)[..cut], c) < |order|
    ensures Recovered(Text(s, c)[..cut], c) == CleanMap(Restricted(slots, order[..RecordsIn(Text(s, c)[..cut], c)]))
  {
    assert s.log[..|s.log|] == s.log;
    JournalLonger(s.log, s.base, |s.log|, c);
    var m := CrashKeeps(s, cut, c);
    hide JournalOf, ReadBack;
    RebuildCut(s.log, s.base, order, slots, m, c);
  }

  /** Cutting it inside the part that the last rebuild wrote leaves the entries of the rebuild whose
      records are whole, and forgets the others. */
  lemma TruncationInRebuild(states: seq<State>, steps: seq<Step>, c: Config, i: nat, cut: nat)
    requires Run(states, steps, c) && i <= |steps|
    requires |Header(c.appVersion, c.valueCount)| <= cut < |RebuiltText(states[i], c)|
    ensures cut <= |Text(states[i], c)|
    ensures var (r, order) := LastRebuild(states, steps, c, i); var n := RecordsIn(Text(states[i], c)[..cut], c);
      r <= i && n < |order| && Recovered(Text(states[i], c)[..cut], c) == CleanMap(Restricted(states[r].slots, order[..n]))
  {
    RunKeepsInv(states, steps, c, i);
    assert Inv(states[i], c);
    var (r, order) := LastRebuild(states, steps, c, i);
    CutInRebuild(states[i], order, states[r].slots, cut, c);
  }

  /** Truncation at any byte at all: what is recovered is a clean map of the run, unless the cut is in the
      rebuilt part; then it is one exactly if the entries whose records are whole make up one. */
  lemma TruncationExactly(states: seq<State>, steps: seq<Step>, c: Config, i: nat, cut: nat)
    requires Run(states, steps, c) && i <= |steps| && cut <= |Text(states[i], c)|
    ensures var (r, order) := LastRebuild(states, steps, c, i); var n := RecordsIn(Text(states[i], c)[..cut], c);
      Earlier(states, i, Recovered(Text(states[i], c)[..cut], c)) <==>
      || cut < |Header(c.appVersion, c.valueCount)| || |RebuiltText(states[i], c)| <= cut
      || (r <= i && n < |order| && Earlier(states, i, CleanMap(Restricted(states[r].slots, order[..n]))))
  {
    hide JournalOf, ReadBack;
    if cut < |Header(c.appVersion, c.valueCount)| {
      HeaderCut(states[i].log, cut, c.appVersion, c.valueCount);
      assert CleanMap(states[0].slots) == map[];
    } else if |RebuiltText(states[i], c)| <= cut {
      TruncationRecovers(states, steps, c, i, cut);
    } else {
      TruncationInRebuild(states, steps, c, i, cut);
    }
  }

  lemma RestrictedSame(m: Slots, keys: seq<string>)
    ensures CleanMap(Restricted(m, keys)) == CleanMap(m) <==> forall k :: k in CleanMap(m) ==> k in keys
  {
    var a, b := CleanMap(Restricted(m, keys)), CleanMap(m);
    assert forall k :: k in a <==> k in b && k in keys;
    if forall k :: k in b ==> k in keys {
      assert a == b;
    }
  }

  /** A cut in the rebuilt part forgets nothing of the rebuild exactly if every entry that was not under
      edit then is among those whose records are whole; for a rebuilt part that has not been cut before,
      exactly if all the others were under edit. */
  lemma NothingForgotten(states: seq<State>, steps: seq<Step>, c: Config, i: nat, cut: nat)
    requires Run(states, steps, c) && i <= |steps|
    requires |Header(c.appVersion, c.valueCount)| <= cut < |RebuiltText(states[i], c)|
    ensures cut <= |Text(states[i], c)|
    ensures var (r, order) := LastRebuild(states, steps, c, i); var n := RecordsIn(Text(states[i], c)[..cut], c);
      r <= i && n < |order| && var clean := CleanMap(states[r].slots); var found := Recovered(Text(states[i], c)[..cut], c);
        && (found == clean <==> forall k :: k in clean ==> k in order[..n])
        && ((forall k :: k in clean ==> k in order) ==> (found == clean <==> forall k :: k in order[n..] ==> k !in clean))
  {
    hide JournalOf, ReadBack, CleanMap, Restricted;
    TruncationInRebuild(states, steps, c, i, cut);
    var (r, order) := LastRebuild(states, steps, c, i);
    var n := RecordsIn(Text(states[i], c)[..cut], c);
    RestrictedSame(states[r].slots, order[..n]);
    RunKeepsInv(states, steps, c, i);
    RebuildDistinct(states[i].log, states[i].base, order, states[r].slots, n);
  }

  lemma RebuildDistinct(log: seq<Record>, base: nat, order: seq<string>, slots: Slots, n: nat)
    requires FromRebuild(log, base, order, slots) && n <= |order|
    ensures forall k :: k in order <==> k in order[..n] || k in order[n..]
    ensures forall k :: k in order[..n] ==> k !in order[n..]
  {
    assert order == order[..n] + order[n..];
  }

  // ----- a run whose rebuilt journal forgets more than any moment knew -----

  const BOTH: Slots := map["a" := Slot(true, false, [1]), "b" := Slot(true, false, [2])]

  /** Two entries are published, and the journal is rebuilt with the later one first. */
  function ForgettingSteps(): seq<Step> {
    [Edit("a"), Commit("a", [1]), Edit("b"), Commit("b", [2]), Compact(["b", "a"])]
  }

  function ForgettingStates(): seq<State> {
    var a, b, da, db := Clean("a", [1]), Clean("b", [2]), Dirty("a"), Dirty("b");
    var onlyA := map["a" := Slot(true, false, [1])];
    [State(map[], [], 0), State(map["a" := Slot(false, true, [0])], [da], 0), State(onlyA, [da, a], 0),
     State(onlyA["b" := Slot(false, true, [0])], [da, a, db], 0), State(BOTH, [da, a, db, b], 0), State(BOTH, [b, a], 2)]
  }

  lemma ForgettingRun(c: Config)
    requires LegalConfig(c) && c.valueCount == 1
    ensures Run(ForgettingStates(), ForgettingSteps(), c)
  {
    var states, steps := ForgettingStates(), ForgettingSteps();
    assert Zeros(1) == [0];
    assert Takes(states[0], steps[0], states[1], c);
    assert Takes(states[1], steps[1], states[2], c);
    assert Takes(states[2], steps[2], states[3], c);
    assert Takes(states[3], steps[3], states[4], c);
    assert Takes(states[4], steps[4], states[5], c) by {
      assert ["b", "a"][..1] == ["b"] && ["b"][..0] == [];
      assert ["b", "a"][0] == "b" && ["b", "a"][1] == "a";
    }
  }

  /** The cut behind the first record of the rebuild recovers {b}, which was the clean map at no moment. */
  lemma TruncationForgets(c: Config) returns (cut: nat)
    requires LegalConfig(c) && c.valueCount == 1
    ensures Run(ForgettingStates(), ForgettingSteps(), c)
    ensures var s := ForgettingStates()[5]; |Header(c.appVersion, c.valueCount)| <= cut < |RebuiltText(s, c)| && cut <= |Text(s, c)|
    ensures var text := Text(ForgettingStates()[5], c)[..cut];
      Recovered(text, c) == map["b" := [2]] && !Earlier(ForgettingStates(), 5, Recovered(text, c))
  {
    ForgettingRun(c);
    var a, b := Clean("a", [1]), Clean("b", [2]);
    var one := JournalOf([b], c.appVersion, c.valueCount);
    cut := |one|;
    assert [b, a][1..] == [a] && [b, a][..2] == [b, a];
    assert Unlines(LinesOf([b, a])) == Line(b) + [LF] + Unlines(LinesOf([a])) && Unlines(LinesOf([b])) == Line(b) + [LF] + Unlines(LinesOf([]));
    assert JournalOf([b, a], c.appVersion, c.valueCount)[..cut] == one + "";
    JournalReadBack([b], "", c.appVersion, c.valueCount);
    assert Replay([b], 1) == map["b" := Slot(true, false, [2])];
    NeverAlone();
  }

  lemma NeverAlone()
    ensures forall j :: 0 <= j <= 5 ==> CleanMap(ForgettingStates()[j].slots) != map["b" := [2]]
  {
    forall j | 0 <= j <= 5
      ensures CleanMap(ForgettingStates()[j].slots) != map["b" := [2]]
    {
      assert "a" in CleanMap(ForgettingStates()[j].slots) || "b" !in CleanMap(ForgettingStates()[j].slots);
    }
  }
}
