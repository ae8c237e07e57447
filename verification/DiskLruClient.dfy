/** A client of the cache: its calls one after the other, on a directory that is empty at first. */
module DiskLruClient {
  import opened Basics
  import opened JournalText
  import opened Journal
  import opened JournalRun
  import opened JournalStore
  import opened LruOrder
  import opened LruCalls
  import opened DiskLru
  import Snapshots

  lemma OneEdit(a: string, b: string, s: State, c: Config)
    requires a != b && Takes(State(map[], [], 0), Edit(a), s, c)
    ensures s.slots == map[a := FreshSlot(c.valueCount).(editing := true)] && !Editing(s.slots, b)
  {
  }

  lemma TwoEdits(s: State, s': State, a: string, b: string, c: Config)
    requires a != b && Takes(State(map[], [], 0), Edit(a), s, c) && Takes(s, Edit(b), s', c)
    ensures s'.slots == map[a := FreshSlot(c.valueCount).(editing := true), b := FreshSlot(c.valueCount).(editing := true)]
  {
  }

  /** The first edit has been published. */
  lemma Committed(s: State, s': State, a: string, b: string, written: seq<bool>, dirty: seq<Option<nat>>, ls: seq<int>,
                  order: seq<string>, r: Outcome<()>, c: Config)
    requires a != b && s.slots == map[a := FreshSlot(c.valueCount).(editing := true), b := FreshSlot(c.valueCount).(editing := true)]
    requires |ls| == |written| == |dirty| == c.valueCount
    requires forall i :: 0 <= i < c.valueCount ==> written[i] && dirty[i].Some? && dirty[i].value == ls[i]
    requires Completes(s, a, true, written, dirty, s', r, c)
    ensures s'.slots == map[a := Slot(true, false, ls), b := FreshSlot(c.valueCount).(editing := true)]
    ensures CompleteOrder(order, s.slots, a, true, written, dirty) == order
  {
    assert NewLengths(s.slots[a].lengths, dirty) == ls;
  }

  lemma TwoKeys(a: string, b: string)
    requires a != b
    ensures Touch(Touch([], a), b) == [a, b]
  {
    assert Touch([], a) == [a];
    WithoutMembers([a], b);
  }

  lemma AbortPair(m: Slots, a: string, b: string, ls: seq<int>)
    requires a != b && m.Keys == {a, b} && m[a] == Slot(true, false, ls) && !m[b].readable
    ensures PublishedKeys([a, b], m) == [a] && Aborted(m, [a, b]) == map[a := Slot(true, false, ls)]
  {
    assert [a, b][..1] == [a] && [a][..0] == [];
    assert PublishedKeys([a], m) == [a];
  }

  /** Closing drops the edit of `b`, and evicts `a` only if it is too large. */
  lemma OneEdited(s: State, a: string, b: string, ls: seq<int>, left: Slot, maxSize: int, s': State, order': seq<string>, n: nat, c: Config)
    requires a != b && s.slots == map[a := Slot(true, false, ls), b := left] && !left.readable
    requires CloseTrims(s, [a, b], maxSize, s', order', n, c) && maxSize >= 0
    ensures CleanMap(s'.slots) == if Sum(ls) <= maxSize then map[a := ls] else map[]
  {
    hide Reaches, Trims, PublishedKeys, Aborted, Edited;
    AbortPair(s.slots, a, b, ls);
    var s1: State :| s1.slots == Aborted(s.slots, [a, b]) && Reaches(s, Aborts(Edited([a, b], s.slots)), s1, c)
      && Trims(s1, PublishedKeys([a, b], s.slots), maxSize, s', order', n);
    TrimOneEntry(s1, a, maxSize, s', order', n);
  }

  lemma TrimOneEntry(s: State, a: string, maxSize: int, s': State, order': seq<string>, n: nat)
    requires a in s.slots && s.slots == map[a := s.slots[a]] && !s.slots[a].editing && maxSize >= 0
    requires Trims(s, [a], maxSize, s', order', n)
    ensures s'.slots == if Sum(s.slots[a].lengths) <= maxSize then s.slots else map[]
  {
    assert [a][..1] == [a] && [a][..0] == [];
    assert Unedited([a], s.slots) == [a];
    assert Total([a], s.slots) == Sum(s.slots[a].lengths);
    assert SetOf([a]) == {a} && SetOf<string>([]) == {};
  }

  /** A cache on an empty directory. */
  method OpenNew(files: JournalFiles, appVersion: int, valueCount: int, maxSize: int) returns (cache: DiskLruCache)
    requires Long(appVersion) && Long(valueCount) && 0 < valueCount && maxSize > 0 && files.disk == Disk(None, None, None)
    modifies files`disk, files`seen
    ensures fresh(cache) && fresh(cache.entries.Values) && cache.Valid() && cache.isOpen
    ensures cache.config == Config(appVersion, valueCount) && cache.maxSize == maxSize && cache.files == files
    ensures cache.Abs() == State(map[], [], 0) && cache.order == []
  {
    var r := DiskLruCache.Open(files, appVersion, valueCount, maxSize, 0);
    cache := r.value;
    NothingFound(Disk(None, None, None), cache.config);
    cache.ValidFacts();
    assert forall k :: k !in cache.order;
  }

  /** Two edits at a time. */
  method OpenEdits(cache: DiskLruCache, a: string, b: string) returns (first: Editor, second: Editor)
    requires cache.Valid() && cache.isOpen && cache.Abs() == State(map[], [], 0) && cache.order == []
    requires LegalKey(a) && LegalKey(b) && a != b
    modifies cache, cache.files
    ensures cache.Valid() && cache.isOpen && cache.maxSize == old(cache.maxSize) && cache.order == [a, b]
    ensures cache.slots == map[a := FreshSlot(cache.config.valueCount).(editing := true), b := FreshSlot(cache.config.valueCount).(editing := true)]
    ensures fresh(first) && cache.OpenOn(first, a) && !first.hasErrors && fresh(second) && cache.OpenOn(second, b) && !second.hasErrors
    ensures fresh(cache.entries.Values - old(cache.entries.Values))
  {
    hide Takes, Touch, DiskLruCache.Valid;
    cache.ValidKeys();
    var r := cache.Edit(a, ANY_SEQUENCE_NUMBER);
    first := r.value;
    ghost var s := cache.Abs();
    OneEdit(a, b, s, cache.config);
    cache.ValidKeys();
    r := cache.Edit(b, ANY_SEQUENCE_NUMBER);
    second := r.value;
    TwoEdits(s, cache.Abs(), a, b, cache.config);
    TwoKeys(a, b);
  }

  /** The first of two edits is published, which can be done only once. */
  method CommitFirst(cache: DiskLruCache, editor: Editor, a: string, b: string, lengths: seq<nat>)
    requires cache.Valid() && cache.OpenOn(editor, a) && !editor.hasErrors && a != b && |lengths| == cache.config.valueCount
    requires cache.slots == map[a := FreshSlot(cache.config.valueCount).(editing := true), b := FreshSlot(cache.config.valueCount).(editing := true)]
    requires forall i :: 0 <= i < |lengths| ==> Long(lengths[i])
    modifies cache, cache.files, cache.entries.Values, editor
    ensures cache.Valid() && cache.isOpen == old(cache.isOpen) && cache.maxSize == old(cache.maxSize) && cache.order == old(cache.order)
    ensures cache.slots == map[a := Slot(true, false, lengths), b := FreshSlot(cache.config.valueCount).(editing := true)]
    ensures cache.entries.Values <= old(cache.entries.Values)
  {
    hide Completes, CompleteOrder, Discards, DiskLruCache.Valid;
    ghost var s := cache.Abs();
    editor.written := seq(cache.config.valueCount, _ => true);
    var dirty: seq<Option<nat>> := seq(cache.config.valueCount, i requires 0 <= i < |lengths| => Some(lengths[i]));
    var r := cache.CommitEdit(editor, dirty);
    Committed(s, cache.Abs(), a, b, editor.written, dirty, lengths, old(cache.order), r, cache.config);
    r := cache.CommitEdit(editor, dirty);
    assert r == IllegalState;
  }

  /** Two edits at a time on a new cache; one is published, and the cache is closed. What the next opening
      finds is the published entry, if it fits. */
  method EditTwo(files: JournalFiles, appVersion: int, valueCount: int, maxSize: int, a: string, b: string, lengths: seq<nat>)
    returns (ghost left: State)
    requires Long(appVersion) && Long(valueCount) && 0 < valueCount == |lengths| && maxSize > 0
    requires LegalKey(a) && LegalKey(b) && a != b && forall i :: 0 <= i < |lengths| ==> Long(lengths[i])
    requires files.disk == Disk(None, None, None)
    modifies files
    ensures var c := Config(appVersion, valueCount);
      CleanAfterOpen(files.disk, c) == if Sum(lengths) <= maxSize then map[a := lengths] else map[]
    ensures var c := Config(appVersion, valueCount); Inv(left, c) && Surviving(files.disk) == Some(Text(left, c))
  {
    hide CloseTrims, DiskLruCache.Valid, CleanAfterOpen, CleanMap, Sum;
    var cache := OpenNew(files, appVersion, valueCount, maxSize);
    var first, second := OpenEdits(cache, a, b);
    CommitFirst(cache, first, a, b, lengths);
    ghost var s := cache.Abs();
    var r;
    ghost var n;
    r, n := cache.Close();
    OneEdited(s, a, b, lengths, FreshSlot(valueCount).(editing := true), maxSize, cache.Abs(), cache.order, n, cache.config);
    cache.StoredClean();
    left := cache.Abs();
    Stored(cache);
  }

  lemma Stored(cache: DiskLruCache)
    requires cache.Valid()
    ensures Inv(cache.Abs(), cache.config) && Surviving(cache.files.disk) == Some(Text(cache.Abs(), cache.config))
  {
  }

  lemma Recommitted(s: State, s': State, key: string, written: seq<bool>, dirty: seq<Option<nat>>, r: Outcome<()>, c: Config)
    requires Readable(s.slots, key) && Completes(s, key, true, written, dirty, s', r, c)
    ensures Publishes(s.slots[key], written, dirty) && s'.slots.Keys == s.slots.Keys
    ensures s'.slots[key] == Slot(true, false, NewLengths(s.slots[key].lengths, dirty))
  {
  }

  /** The edit of a published entry is published. In the history of the sequence numbers that is one more
      publication. */
  method PublishAgain(cache: DiskLruCache, editor: Editor, key: string, dirty: seq<Option<nat>>)
    requires cache.Valid() && cache.isOpen && cache.OpenOn(editor, key) && !editor.hasErrors && Readable(cache.slots, key)
    requires Reports(dirty, cache.config)
    modifies cache, cache.files, cache.entries.Values, editor
    ensures cache.Valid() && cache.isOpen && cache.entries == old(cache.entries) && key in cache.slots
    ensures cache.slots[key] == Slot(true, false, NewLengths(old(cache.slots)[key].lengths, dirty))
    ensures cache.entries[key].sequenceNumber == old(cache.nextSequenceNumber)
    ensures cache.Numbers() == Snapshots.Step(old(cache.Numbers()), Snapshots.Published(key))
  {
    hide Completes, CompleteOrder, Discards, Publishes, NewLengths, DiskLruCache.Valid, DiskLruCache.Numbers;
    cache.ValidKeys();
    var r := cache.CommitEdit(editor, dirty);
    Recommitted(old(cache.Abs()), cache.Abs(), key, editor.written, dirty, r, cache.config);
    cache.ValidKeys();
    cache.ValidEntry(key);
    cache.PublishedNumbers(editor.entry);
  }

  /** A published entry is published anew. */
  method EditAgain(cache: DiskLruCache, key: string, dirty: seq<Option<nat>>)
    requires cache.Valid() && cache.isOpen && LegalKey(key) && Readable(cache.slots, key) && !Editing(cache.slots, key)
    requires Reports(dirty, cache.config)
    modifies cache, cache.files, cache.entries.Values
    ensures cache.Valid() && cache.isOpen && Readable(cache.slots, key) && !Editing(cache.slots, key)
    ensures cache.slots[key].lengths == NewLengths(old(cache.slots)[key].lengths, dirty)
    ensures key in old(cache.entries) && key in cache.entries && cache.entries[key] == old(cache.entries)[key]
    ensures cache.entries[key].sequenceNumber == old(cache.nextSequenceNumber)
    ensures fresh(cache.entries.Values - old(cache.entries.Values))
  {
    hide Takes, NewLengths, DiskLruCache.Valid, DiskLruCache.Numbers;
    cache.ValidKeys();
    ghost var s := cache.Abs();
    var r := cache.Edit(key, ANY_SEQUENCE_NUMBER);
    Reedited(s, cache.Abs(), key, cache.config);
    PublishAgain(cache, r.value, key, dirty);
  }

  /** In a cache as opening leaves it, a snapshot is taken, and its entry is published anew. The old
      snapshot still gets an editor. */
  method EditStale(cache: DiskLruCache, key: string, dirty: seq<Option<nat>>) returns (snapshot: Snapshot, stale: Editor)
    requires cache.Valid() && cache.isOpen && cache.Unnumbered() && cache.nextSequenceNumber == 0
    requires LegalKey(key) && Readable(cache.slots, key) && !Editing(cache.slots, key) && Reports(dirty, cache.config)
    modifies cache, cache.files, cache.entries.Values
    ensures cache.Valid() && cache.OpenOn(stale, key) && snapshot.key == key
    ensures Readable(cache.slots, key) && cache.slots[key].lengths == NewLengths(old(cache.slots)[key].lengths, dirty)
  {
    hide Takes, NewLengths, DiskLruCache.Valid, DiskLruCache.Numbers;
    cache.ValidKeys();
    var found := cache.Get(key, true);
    snapshot := found.value.value;
    SameSlots(old(cache.Abs()), cache.Abs(), key, cache.config);
    EditAgain(cache, key, dirty);
    ghost var s := cache.Abs();
    var edited := cache.Edit(key, snapshot.sequenceNumber);
    stale := edited.value;
    Reedited(s, cache.Abs(), key, cache.config);
  }

  lemma SameSlots(s: State, s': State, key: string, c: Config)
    requires Takes(s, Get(key), s', c)
    ensures s'.slots == s.slots
  {
  }

  lemma Reedited(s: State, s': State, key: string, c: Config)
    requires key in s.slots && Takes(s, Edit(key), s', c)
    ensures s'.slots == s.slots[key := s.slots[key].(editing := true)]
  {
  }

  /** The cache on a disk that another cache has left. */
  method Reopen(files: JournalFiles, appVersion: int, valueCount: int, maxSize: int, ghost left: State) returns (cache: DiskLruCache)
    requires Long(appVersion) && Long(valueCount) && 0 < valueCount && maxSize > 0
    requires Inv(left, Config(appVersion, valueCount)) && Surviving(files.disk) == Some(Text(left, Config(appVersion, valueCount)))
    modifies files`disk, files`seen
    ensures fresh(cache) && fresh(cache.entries.Values) && cache.Valid() && cache.isOpen
    ensures cache.config == Config(appVersion, valueCount) && cache.maxSize == maxSize && cache.files == files
    ensures cache.Unnumbered() && cache.nextSequenceNumber == 0 && CleanMap(cache.slots) == CleanMap(left.slots)
    ensures forall k :: k in cache.slots ==> Readable(cache.slots, k) && !Editing(cache.slots, k)
  {
    hide FoundLog, OwnText, RestartsFrom, CleanMap, Replay, JournalOf, Inv;
    OwnFound(left, files.disk, Config(appVersion, valueCount));
    var r := DiskLruCache.Open(files, appVersion, valueCount, maxSize, left.base);
    cache := r.value;
    AtOnce(cache);
  }

  lemma AtOnce(cache: DiskLruCache)
    requires cache.Valid() && exists m: Slots :: cache.slots == Cleaned(m)
    ensures forall k :: k in cache.slots ==> Readable(cache.slots, k) && !Editing(cache.slots, k)
  {
    forall k | k in cache.slots
      ensures Readable(cache.slots, k)
    {
      SlotSound(cache.Abs(), cache.order, cache.size, cache.config, k);
    }
  }

  /** So it goes for an entry that an earlier cache has published. */
  method StaleAfterReopen(files: JournalFiles, a: string, b: string, length: nat, dirty: nat) returns (cache: DiskLruCache, snapshot: Snapshot, stale: Editor)
    requires LegalKey(a) && LegalKey(b) && a != b && Long(length) && Long(dirty) && files.disk == Disk(None, None, None)
    modifies files
    ensures fresh(cache) && cache.Valid() && cache.OpenOn(stale, a) && snapshot.key == a && cache.slots[a].lengths == [dirty]
  {
    hide CleanAfterOpen, DiskLruCache.Valid, DiskLruCache.OpenOn, DiskLruCache.Unnumbered, Inv, Text;
    assert [length][1..] == [];
    assert Sum([length]) == length;
    ghost var left := EditTwo(files, 1, 1, length + 1, a, b, [length]);
    var c := Config(1, 1);
    JournalledClean(left, files.disk, c);
    cache := Reopen(files, 1, 1, length + 1, left);
    assert a in CleanMap(cache.slots) && CleanMap(cache.slots)[a] == [length];
    snapshot, stale := EditStale(cache, a, [Some(dirty)]);
    assert NewLengths([length], [Some(dirty)]) == [dirty];
  }

  // ----- values that an edit leaves alone -----

  /** The number of the last report that has a length for value `i`; -1 if there is none. */
  function LastReport(reports: seq<seq<Option<nat>>>, i: nat): (j: int)
    requires forall r :: r in reports ==> i < |r|
    ensures -1 <= j < |reports| && (j >= 0 ==> reports[j][i].Some?) && forall k :: j < k < |reports| ==> reports[k][i] == None
  {
    if reports == [] then -1
    else if reports[|reports| - 1][i].Some? then |reports| - 1
    else
      var j := LastReport(reports[..|reports| - 1], i);
      assert forall k :: 0 <= k < |reports| - 1 ==> reports[..|reports| - 1][k] == reports[k];
      j
  }

  /** Each value has the length that was reported for it last, or the one it had if there was no report. */
  ghost predicate AsReported(reports: seq<seq<Option<nat>>>, was: seq<int>, now: seq<int>) {
    && |now| == |was| && (forall r :: r in reports ==> |r| == |was|)
    && forall i :: 0 <= i < |was| ==> var j := LastReport(reports, i); now[i] == if j >= 0 then reports[j][i].value else was[i]
  }

  lemma OneReport(reports: seq<seq<Option<nat>>>, report: seq<Option<nat>>, was: seq<int>, before: seq<int>, after: seq<int>)
    requires AsReported(reports, was, before) && |report| == |was| && after == NewLengths(before, report)
    ensures AsReported(reports + [report], was, after)
  {
    var more := reports + [report];
    assert more[..|more| - 1] == reports;
    forall r | r in more
      ensures |r| == |was|
    {
    }
    forall i | 0 <= i < |was|
      ensures LastReport(more, i) == if report[i].Some? then |reports| else LastReport(reports, i)
    {
    }
  }

  /** The entry can be read, and no edit is open on it. */
  ghost predicate Settled(cache: DiskLruCache, key: string)
    reads cache, cache.files, cache.known, cache.entries.Values
  {
    cache.Valid() && cache.isOpen && Readable(cache.slots, key) && !Editing(cache.slots, key)
  }

  /** A published entry is edited and published any number of times, and every edit writes some of the
      values. */
  method EditMany(cache: DiskLruCache, key: string, reports: seq<seq<Option<nat>>>)
    requires Settled(cache, key) && LegalKey(key) && forall i :: 0 <= i < |reports| ==> Reports(reports[i], cache.config)
    modifies cache, cache.files, cache.entries.Values
    ensures Settled(cache, key) && AsReported(reports, old(cache.slots)[key].lengths, cache.slots[key].lengths)
  {
    hide DiskLruCache.Valid, NewLengths, AsReported;
    ghost var was, values := cache.slots[key].lengths, cache.entries.Values;
    NoReport(was);
    cache.ValidLengths(key);
    assert reports[..0] == [];
    for n := 0 to |reports|
      invariant Settled(cache, key) && fresh(cache.entries.Values - values)
      invariant |was| == cache.config.valueCount && AsReported(reports[..n], was, cache.slots[key].lengths)
    {
      ghost var before := cache.slots[key].lengths;
      EditAgain(cache, key, reports[n]);
      OneReport(reports[..n], reports[n], was, before, cache.slots[key].lengths);
      assert reports[..n + 1] == reports[..n] + [reports[n]];
    }
    assert reports[..|reports|] == reports;
  }

  lemma NoReport(was: seq<int>)
    ensures AsReported([], was, was)
  {
  }

  /** An entry of two values is published with 10 and 20 bytes, and then only the first one is written
      anew. The second one is still there, and the journal says so. */
  method EditOneOfTwo(files: JournalFiles, key: string) returns (cache: DiskLruCache)
    requires LegalKey(key) && files.disk == Disk(None, None, None)
    modifies files
    ensures fresh(cache) && cache.Valid() && key in cache.entries && cache.entries[key].lengths == [15, 20] && cache.size == 35
    ensures cache.log == [Dirty(key), Clean(key, [10, 20]), Dirty(key), Clean(key, [15, 20])]
  {
    hide DiskLruCache.Valid;
    cache := OpenNew(files, 1, 2, 1000);
    cache.ValidKeys();
    assert cache.log == [];
    EditBoth(cache, key, [true, true], [Some(10), Some(20)]);
    assert cache.entries[key].lengths == [10, 20];
    assert cache.log == [Dirty(key), Clean(key, [10, 20])];
    EditBoth(cache, key, [true, false], [Some(15), None]);
    assert cache.entries[key].lengths == [15, 20];
    cache.OneEntry(key);
    assert [15, 20][1..] == [20] && [20][1..] == [];
  }

  /** An edit of an entry of two values that is published; in terms of the reports. */
  method EditBoth(cache: DiskLruCache, key: string, written: seq<bool>, dirty: seq<Option<nat>>)
    requires cache.Valid() && cache.isOpen && LegalKey(key) && cache.config.valueCount == 2 == |dirty| == |written|
    requires key in cache.entries ==> cache.entries[key].readable && cache.entries[key].currentEditor == null
    requires key !in cache.entries ==> forall i :: 0 <= i < 2 ==> written[i] && dirty[i].Some?
    requires forall i :: 0 <= i < 2 && dirty[i].Some? ==> dirty[i].value < 100
    modifies cache, cache.files, cache.entries.Values
    ensures cache.Valid() && cache.isOpen && cache.entries.Keys == old(cache.entries).Keys + {key}
    ensures cache.entries[key].readable && cache.entries[key].currentEditor == null && |cache.entries[key].lengths| == 2
    ensures fresh(cache.entries.Values - old(cache.entries.Values))
    ensures forall i :: 0 <= i < 2 && dirty[i].Some? ==> cache.entries[key].lengths[i] == dirty[i].value
    ensures forall i :: 0 <= i < 2 && dirty[i] == None ==>
      key in old(cache.entries) && |old(cache.entries[key].lengths)| == 2 && cache.entries[key].lengths[i] == old(cache.entries[key].lengths)[i]
    ensures cache.log == old(cache.log) + [Dirty(key), Clean(key, cache.entries[key].lengths)]
  {
    hide DiskLruCache.Valid, Completes, CompleteOrder, Discards, Takes, Reports, LegalKey, Touch, Publishes, Renumbered;
    cache.ValidKeys();
    if key in cache.entries {
      cache.ValidEntry(key);
    }
    var r := cache.Edit(key, ANY_SEQUENCE_NUMBER);
    FinishEdit(cache, r.value, key, written, dirty);
  }

  method FinishEdit(cache: DiskLruCache, editor: Editor, key: string, written: seq<bool>, dirty: seq<Option<nat>>)
    requires cache.Valid() && cache.OpenOn(editor, key) && !editor.hasErrors
    requires cache.config.valueCount == 2 == |dirty| == |written| && forall i :: 0 <= i < 2 && dirty[i].Some? ==> dirty[i].value < 100
    requires editor.entry.readable || forall i :: 0 <= i < 2 ==> written[i] && dirty[i].Some?
    modifies cache, cache.files, cache.entries.Values, editor
    ensures cache.Valid() && cache.isOpen == old(cache.isOpen) && cache.entries == old(cache.entries)
    ensures editor.entry.readable && editor.entry.currentEditor == null && |editor.entry.lengths| == 2 == |old(editor.entry.lengths)|
    ensures forall i :: 0 <= i < 2 ==> editor.entry.lengths[i] == if dirty[i].Some? then dirty[i].value else old(editor.entry.lengths)[i]
    ensures cache.log == old(cache.log) + [Clean(key, editor.entry.lengths)]
  {
    hide DiskLruCache.Valid, Completes, CompleteOrder, Discards, Takes, Reports, Publishes, Renumbered;
    editor.written := written;
    TwoReports(dirty, cache.config);
    var done := cache.CommitEdit(editor, dirty);
    assert forall k :: k in old(cache.entries) <==> k in cache.entries;
  }

  lemma TwoReports(dirty: seq<Option<nat>>, c: Config)
    requires c.valueCount == 2 == |dirty| && forall i :: 0 <= i < 2 && dirty[i].Some? ==> dirty[i].value < 100
    ensures Reports(dirty, c)
  {
  }
}
