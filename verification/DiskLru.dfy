/** The disk cache: entries, editors, and the calls that change them.
    What the file system reports about value files (is there a dirty file, how long is it, can the
    clean files be opened) is a parameter of the calls. */
module DiskLru {
  import opened Basics
  import opened JournalText
  import opened LineReader
  import opened Journal
  import opened JournalRun
  import opened JournalStore
  import opened LruOrder
  import opened LruCalls
  import Snapshots

  datatype Snapshot = Snapshot(key: string, sequenceNumber: int)

  const ANY_SEQUENCE_NUMBER := -1

  /** Entries have gone, and the others are the objects that they were. */
  ghost predicate Shrunk(now: map<string, Entry>, before: map<string, Entry>) {
    now.Values <= before.Values && forall k :: k in now ==> k in before && now[k] == before[k]
  }

  lemma ShrunkMore(a: map<string, Entry>, b: map<string, Entry>, c: map<string, Entry>)
    ensures Shrunk(c, c)
    ensures Shrunk(a, b) ==> a.Values <= b.Values
    ensures Shrunk(a, b) && Shrunk(b, c) ==> Shrunk(a, c)
  {
  }

  class Entry {
    const key: string
    var lengths: seq<int>
    var readable: bool
    var currentEditor: Editor?
    var sequenceNumber: int

    constructor (key: string, valueCount: nat)
      ensures this.key == key && lengths == Zeros(valueCount) && !readable && currentEditor == null && sequenceNumber == 0
    {
      this.key := key;
      lengths, readable, currentEditor, sequenceNumber := Zeros(valueCount), false, null, 0;
    }
  }

  class Editor {
    const entry: Entry
    var written: seq<bool>
    var hasErrors: bool
    var committed: bool

    constructor (entry: Entry, valueCount: nat)
      ensures this.entry == entry && !hasErrors && !committed && written == seq(valueCount, _ => false)
    {
      this.entry := entry;
      written, hasErrors, committed := seq(valueCount, _ => false), false, false;
    }
  }

  class DiskLruCache {
    const config: Config
    const files: JournalFiles
    var isOpen: bool
    var maxSize: int
    var size: int
    var order: seq<string>
    var entries: map<string, Entry>
    var redundantOpCount: int
    var nextSequenceNumber: int
    /** The slots of all entries, and the records of the journal with what the last rebuild wrote. */
    ghost var slots: Slots
    ghost var log: seq<Record>
    ghost var base: nat
    /** The entries that editors may have been handed out for, those that have gone included. */
    ghost var known: set<Entry>

    constructor (config: Config, files: JournalFiles, maxSize: int)
      ensures this.config == config && this.files == files && this.maxSize == maxSize
      ensures !isOpen && size == 0 && order == [] && entries == map[] && redundantOpCount == 0 && nextSequenceNumber == 0
      ensures Abs() == State(map[], [], 0) && known == {}
    {
      this.config, this.files, this.maxSize := config, files, maxSize;
      isOpen, size, order, entries, redundantOpCount, nextSequenceNumber := false, 0, [], map[], 0, 0;
      slots, log, base, known := map[], [], 0, {};
    }

    ghost function Abs(): State
      reads this`slots, this`log, this`base
    {
      State(slots, log, base)
    }

    /** The entry objects are as `slots` says. */
    ghost predicate Objects()
      reads this`entries, this`slots, entries.Values`readable, entries.Values`lengths, entries.Values`currentEditor
    {
      && entries.Keys == slots.Keys
      && forall k :: k in entries ==> var e := entries[k];
           && e.key == k && e.readable == slots[k].readable && e.lengths == slots[k].lengths
           && (if e.currentEditor == null then !slots[k].editing else slots[k].editing && e.currentEditor.entry == e)
    }

    /** An entry with an editor is in the cache. */
    ghost predicate Handles()
      reads this`entries, this`known, known`currentEditor
    {
      entries.Values <= known && forall e :: e in known && e.currentEditor != null ==> e.key in entries && entries[e.key] == e
    }

    /** The journal file holds the records written so far. */
    ghost predicate Journalled()
      reads this`log, files`disk
    {
      files.disk == Disk(Some(JournalOf(log, config.appVersion, config.valueCount)), None, None)
    }

    ghost predicate Valid()
      reads this, files`disk, known`currentEditor
      reads entries.Values`readable, entries.Values`lengths, entries.Values`currentEditor
    {
      Objects() && Handles() && Sound(Abs(), order, size, config) && Journalled() && (isOpen || Idle(slots))
    }

    /** An editor of this cache, whatever has become of its entry. */
    ghost predicate Issued(editor: Editor)
      reads this`known, editor`written
    {
      editor.entry in known && |editor.written| == config.valueCount
    }

    /** The editor is the current one of the entry under `key`. */
    ghost predicate OpenOn(editor: Editor, key: string)
      reads this`entries, this`known, entries.Values`currentEditor, editor`written
    {
      && key in entries && editor.entry == entries[key] && editor.entry.key == key
      && entries[key].currentEditor == editor && Issued(editor)
    }

    /** The snapshot that the caller edits is not of the entry as it is now. */
    predicate Stale(key: string, expectedSequenceNumber: int)
      reads this`entries, entries.Values`sequenceNumber
    {
      expectedSequenceNumber != ANY_SEQUENCE_NUMBER && (key !in entries || entries[key].sequenceNumber != expectedSequenceNumber)
    }

    /** The sequence numbers of the published entries. */
    ghost function Numbers(): Snapshots.Numbers
      reads this`entries, this`nextSequenceNumber, entries.Values`readable, entries.Values`sequenceNumber
    {
      Snapshots.Numbers(map k | k in entries && entries[k].readable :: entries[k].sequenceNumber, nextSequenceNumber)
    }

    /** As opening leaves it. */
    ghost predicate Unnumbered()
      reads this`entries, entries.Values`sequenceNumber
    {
      forall e :: e in entries.Values ==> e.sequenceNumber == 0
    }

    twostate lemma PublishedNumbers(entry: Entry)
      requires entries == old(entries) && entry.key in entries && entries[entry.key] == entry && old(Valid())
      requires entry.readable && entry.sequenceNumber == old(nextSequenceNumber) && nextSequenceNumber == old(nextSequenceNumber) + 1
      requires forall e :: e in entries.Values && e != entry ==> e.readable == old(e.readable) && e.sequenceNumber == old(e.sequenceNumber)
      ensures Numbers() == Snapshots.Step(old(Numbers()), Snapshots.Published(entry.key))
    {
      hide Handles, Sound, Journalled, Idle;
      assert old(forall k :: k in entries ==> entries[k].key == k);
    }

    /** Entries that go take their numbers with them. */
    twostate lemma GoneNumbers()
      requires Shrunk(entries, old(entries)) && nextSequenceNumber == old(nextSequenceNumber)
      requires forall e :: e in entries.Values ==> e.readable == old(e.readable) && e.sequenceNumber == old(e.sequenceNumber)
      ensures Numbers() == Snapshots.AllGone(old(Numbers()), old(entries).Keys - entries.Keys)
    {
    }

    /** The entry under `key`, if there is one. */
    ghost function Named(key: string): (es: set<Entry>)
      reads this`entries
      ensures es <= entries.Values
    {
      if key in entries then {entries[key]} else {}
    }

    // ----- the parts of the calls -----

    /** Appending a record to the journal. */
    method Append(r: Record)
      requires Journalled() && Objects()
      modifies this`log, files`disk, files`seen
      ensures log == old(log) + [r] && Journalled() && Objects()
    {
      JournalAppend(log, r, config);
      files.Put(files.disk.(journal := Some(files.disk.journal.value + (Line(r) + [LF]))));
      log := log + [r];
    }

    /** lruEntries.get: a hit moves the key to the end of the access order. */
    method Lookup(key: string) returns (entry: Entry?)
      requires Valid()
      modifies this`order
      ensures Valid() && order == if key in slots then Touch(old(order), key) else old(order)
      ensures if key in slots then IsEntry(entry, key) else entry == null && key !in entries
    {
      hide Sound, Journalled, Handles, Idle;
      if key !in entries {
        return null;
      }
      entry := entries[key];
      TouchSound(Abs(), order, key, size, config);
      order := Touch(order, key);
    }

    /** The object of the entry, as its slot says. */
    ghost predicate IsEntry(entry: Entry?, key: string)
      reads this`entries, this`slots, entry
    {
      && entry != null && key in entries && entry == entries[key] && entry.key == key && key in slots
      && entry.readable == slots[key].readable && entry.lengths == slots[key].lengths && (entry.currentEditor != null <==> slots[key].editing)
    }

    predicate JournalRebuildRequired()
      reads this
    {
      redundantOpCount >= 2000 && redundantOpCount >= |order|
    }

    method AddEntry(key: string) returns (entry: Entry)
      requires Objects() && key !in entries
      modifies this`entries, this`order, this`slots
      ensures Objects() && slots == old(slots)[key := FreshSlot(config.valueCount)] && order == old(order) + [key]
      ensures fresh(entry) && entry.key == key && entry.currentEditor == null && entry.sequenceNumber == 0 && entries == old(entries)[key := entry]
    {
      entry := new Entry(key, config.valueCount);
      entries := entries[key := entry];
      order := order + [key];
      slots := slots[key := FreshSlot(config.valueCount)];
    }

    /** A new entry for an edit. */
    method CreateEntry(key: string) returns (entry: Entry)
      requires Objects() && Handles() && key !in entries
      modifies this`entries, this`order, this`slots, this`known
      ensures Objects() && slots == old(slots)[key := FreshSlot(config.valueCount)] && order == old(order) + [key]
      ensures Handles() && old(known) <= known && fresh(entry) && entries == old(entries)[key := entry]
    {
      hide Objects;
      entry := AddEntry(key);
      known := known + {entry};
    }

    lemma EntryFields(key: string)
      requires Objects() && key in entries
      ensures IsEntry(entries[key], key) && (slots[key].editing ==> entries[key].currentEditor.entry == entries[key])
    {
    }

    method InstallEditor(key: string, entry: Entry) returns (editor: Editor)
      requires Objects() && key in entries && entries[key] == entry
      modifies this`slots, entry`currentEditor
      ensures Objects() && slots == old(slots)[key := old(slots)[key].(editing := true)]
      ensures fresh(editor) && editor.entry == entry && entry.currentEditor == editor && |editor.written| == config.valueCount && !editor.hasErrors
      ensures old(Handles()) ==> Handles()
    {
      hide Handles, Objects;
      EntryFields(key);
      editor := new Editor(entry, config.valueCount);
      entry.currentEditor := editor;
      slots := slots[key := slots[key].(editing := true)];
      EntryUpdated(entry);
      StillHandles(entry);
    }

    twostate lemma StillHandles(entry: Entry)
      requires entries == old(entries) && known == old(known) && entry.key in entries && entries[entry.key] == entry
      requires forall e :: e in known && e != entry ==> e.currentEditor == old(e.currentEditor)
      ensures old(Handles()) ==> Handles()
    {
    }

    /** One entry has changed, and its slot with it. */
    twostate lemma EntryUpdated(entry: Entry)
      requires old(Objects()) && entries == old(entries) && entry.key in entries && entries[entry.key] == entry && entry.key in slots
      requires slots == old(slots)[entry.key := slots[entry.key]]
      requires forall e :: e in entries.Values && e != entry ==>
        e.readable == old(e.readable) && e.lengths == old(e.lengths) && e.currentEditor == old(e.currentEditor)
      requires entry.readable == slots[entry.key].readable && entry.lengths == slots[entry.key].lengths
      requires if entry.currentEditor == null then !slots[entry.key].editing else slots[entry.key].editing && entry.currentEditor.entry == entry
      ensures Objects()
    {
      forall k | k in entries && k != entry.key
        ensures entries[k] != entry && entries[k] in entries.Values && slots[k] == old(slots)[k]
      {
        assert old(entries[k].key == k);
      }
    }

    /** The editor lets go of the entry, which stays as it was. */
    method ReleaseEditor(entry: Entry)
      requires Objects() && entry.key in entries && entries[entry.key] == entry
      modifies this`slots, this`redundantOpCount, entry`currentEditor
      ensures Objects() && slots == old(slots)[entry.key := old(slots)[entry.key].(editing := false)]
      ensures entry.currentEditor == null && redundantOpCount == old(redundantOpCount) + 1 && (old(Handles()) ==> Handles())
    {
      hide Handles, Objects;
      EntryFields(entry.key);
      redundantOpCount := redundantOpCount + 1;
      entry.currentEditor := null;
      slots := slots[entry.key := slots[entry.key].(editing := false)];
      EntryUpdated(entry);
      StillHandles(entry);
    }

    /** The editor lets go of the entry, which is now published. */
    method Publish(entry: Entry)
      requires Objects() && entry.key in entries && entries[entry.key] == entry
      modifies this`slots, this`redundantOpCount, this`nextSequenceNumber, entry`currentEditor, entry`readable, entry`sequenceNumber
      ensures Objects() && slots == old(slots)[entry.key := Slot(true, false, entry.lengths)]
      ensures entry.sequenceNumber == old(nextSequenceNumber) && nextSequenceNumber == old(nextSequenceNumber) + 1
      ensures entry.currentEditor == null && redundantOpCount == old(redundantOpCount) + 1 && (old(Handles()) ==> Handles())
    {
      hide Handles, Objects;
      EntryFields(entry.key);
      redundantOpCount := redundantOpCount + 1;
      entry.currentEditor := null;
      entry.readable := true;
      slots := slots[entry.key := Slot(true, false, entry.lengths)];
      entry.sequenceNumber := nextSequenceNumber;
      nextSequenceNumber := nextSequenceNumber + 1;
      EntryUpdated(entry);
      StillHandles(entry);
    }

    method RemoveEntry(key: string)
      requires Objects()
      modifies this`entries, this`order, this`slots
      ensures Objects() && entries == old(entries) - {key} && order == Without(old(order), key) && slots == old(slots) - {key}
      ensures Shrunk(entries, old(entries)) && (old(Handles()) && !Editing(old(slots), key) ==> Handles())
    {
      entries := entries - {key};
      order := Without(order, key);
      slots := slots - {key};
    }

    /** The loop over the values: every dirty file replaces the clean one, and the size follows. */
    method UpdateLengths(entry: Entry, dirty: seq<Option<nat>>)
      requires Objects() && entry.key in entries && entries[entry.key] == entry && |entry.lengths| == |dirty|
      modifies this`size, this`slots, entry`lengths
      ensures Objects() && entry.lengths == NewLengths(old(entry.lengths), dirty)
      ensures slots == old(slots)[entry.key := old(slots)[entry.key].(lengths := entry.lengths)]
      ensures size == old(size) - Sum(old(entry.lengths)) + Sum(entry.lengths)
    {
      hide Objects;
      EntryFields(entry.key);
      ghost var ls0 := entry.lengths;
      for i := 0 to |dirty|
        invariant |entry.lengths| == |dirty|
        invariant forall j :: 0 <= j < |dirty| ==> entry.lengths[j] == if j < i then NewLengths(ls0, dirty)[j] else ls0[j]
        invariant size == old(size) - Sum(ls0) + Sum(entry.lengths)
        modifies this`size, entry`lengths
      {
        if dirty[i].Some? {
          var oldLength, newLength := entry.lengths[i], dirty[i].value;
          SumChanged(entry.lengths, i, newLength);
          entry.lengths := entry.lengths[i := newLength];
          size := size - oldLength + newLength;
        }
      }
      slots := slots[entry.key := slots[entry.key].(lengths := entry.lengths)];
      EntryUpdated(entry);
    }

    // ----- the calls -----

    /** edit: an editor for the entry, or null exactly if another edit is in progress or the caller's
        snapshot is stale. */
    method Edit(key: string, expectedSequenceNumber: int) returns (r: Outcome<Editor?>)
      requires Valid()
      modifies this`entries, this`order, this`slots, this`known, this`log, files`disk, files`seen, Named(key)`currentEditor
      ensures Valid() && old(known) <= known && fresh(entries.Values - old(entries.Values))
      ensures r != NoSuchElement && (r == IllegalState <==> !isOpen)
      ensures r == IllegalArgument <==> isOpen && !LegalKey(key)
      ensures r.Value? ==> (r.value == null <==> old(Stale(key, expectedSequenceNumber)) || Editing(old(slots), key))
      ensures r.Value? ==> (r.value == null <==> if key in old(entries)
        then old(entries[key].currentEditor) != null || (expectedSequenceNumber != -1 && expectedSequenceNumber != old(entries[key].sequenceNumber))
        else expectedSequenceNumber != -1)
      ensures r.Value? && r.value != null ==> Takes(old(Abs()), JournalRun.Edit(key), Abs(), config) && order == Touch(old(order), key)
      ensures r.Value? && r.value != null ==> fresh(r.value) && OpenOn(r.value, key) && !r.value.hasErrors
      ensures r.Value? && r.value != null ==>
        && log == old(log) + [Dirty(key)] && entries.Keys == old(entries).Keys + {key}
        && if key in old(entries) then entries[key] == old(entries)[key]
           else !entries[key].readable && entries[key].lengths == seq(config.valueCount, _ => 0)
      ensures forall k :: k in old(entries) ==> k in entries && entries[k] == old(entries)[k]
      ensures !r.Value? || r.value == null ==> Abs() == old(Abs()) && entries == old(entries)
      ensures !r.Value? || r.value == null ==> order == if r.Value? && key in slots then Touch(old(order), key) else old(order)
    {
      hide Valid, LegalKey, Takes, Without, OpenOn;
      if !isOpen {
        return IllegalState;
      }
      if !LegalKey(key) {
        return IllegalArgument;
      }
      var entry := Lookup(key);
      if expectedSequenceNumber != ANY_SEQUENCE_NUMBER && (entry == null || entry.sequenceNumber != expectedSequenceNumber) {
        return Value(null);
      }
      if entry != null && entry.currentEditor != null {
        return Value(null);
      }
      AbsentOrder(key);
      ValidKeys();
      ghost var s := Abs();
      var editor := OpenEditor(key, entry);
      EditPlainly(s, key, Abs(), config);
      ValidKeys();
      ValidEntry(key);
      return Value(editor);
    }

    /** A new editor on the entry, which may be a new one, and the DIRTY line. */
    method OpenEditor(key: string, found: Entry?) returns (editor: Editor)
      requires Valid() && isOpen && LegalKey(key) && !Editing(slots, key)
      requires if key in slots then IsEntry(found, key) else found == null && key !in entries
      modifies this`entries, this`order, this`slots, this`known, this`log, files`disk, files`seen, Named(key)`currentEditor
      ensures Valid() && old(known) <= known && fresh(entries.Values - old(entries.Values))
      ensures Takes(old(Abs()), JournalRun.Edit(key), Abs(), config)
      ensures order == if key in old(slots) then old(order) else old(order) + [key]
      ensures forall k :: k in old(entries) ==> k in entries && entries[k] == old(entries)[k]
      ensures fresh(editor) && OpenOn(editor, key) && !editor.hasErrors
    {
      hide JournalOf, Sound, Takes, Idle, LegalKey, Objects, Handles, OpenOn;
      ghost var s, order0 := Abs(), order;
      var entry := found;
      if entry == null {
        entry := CreateEntry(key);
      }
      editor := StartEdit(key, entry);
      EditOpened(s, key, order0);
    }

    method StartEdit(key: string, entry: Entry) returns (editor: Editor)
      requires Objects() && Handles() && Journalled() && key in entries && entries[key] == entry
      modifies this`slots, this`log, files`disk, files`seen, entry`currentEditor
      ensures Objects() && Handles() && Journalled() && log == old(log) + [Dirty(key)]
      ensures key in old(slots) && slots == old(slots)[key := old(slots)[key].(editing := true)]
      ensures fresh(editor) && OpenOn(editor, key) && !editor.hasErrors
    {
      hide JournalOf;
      editor := InstallEditor(key, entry);
      Append(Dirty(key));
    }

    lemma EditOpened(s: State, key: string, order0: seq<string>)
      requires Objects() && Handles() && Journalled() && isOpen && LegalKey(key)
      requires Sound(s, order0, size, config) && !Editing(s.slots, key)
      requires Abs() == State(s.slots[key := SlotOr(s.slots, key, config.valueCount).(editing := true)], s.log + [Dirty(key)], s.base)
      requires order == if key in s.slots then order0 else order0 + [key]
      ensures Valid() && Takes(s, JournalRun.Edit(key), Abs(), config)
    {
      hide JournalOf, Objects, Handles, Journalled, Sound, Takes;
      EditKeeps(order0, s, key, size, config);
    }

    /** remove: false if there is no such entry or it is under edit. */
    method Remove(key: string) returns (r: Outcome<bool>)
      requires Valid()
      modifies this`size, this`order, this`entries, this`redundantOpCount, this`slots, this`log, files`disk, files`seen, Named(key)`lengths
      ensures Valid() && Shrunk(entries, old(entries))
      ensures redundantOpCount == old(redundantOpCount) + if r == Value(true) then 1 else 0
      ensures r != NoSuchElement && (r == IllegalState <==> !isOpen)
      ensures r == IllegalArgument <==> isOpen && !LegalKey(key)
      ensures !r.Value? ==> Abs() == old(Abs()) && order == old(order)
      ensures r.Value? ==> r.value == (key in old(slots) && !old(slots)[key].editing)
      ensures r.Value? && r.value ==> Takes(old(Abs()), Drop(key), Abs(), config) && order == Without(old(order), key)
      ensures r.Value? && r.value ==> log == old(log) + [JournalText.Remove(key)] && entries.Keys == old(entries).Keys - {key}
      ensures !r.Value? || !r.value ==> entries == old(entries)
      ensures r.Value? && !r.value ==> Abs() == old(Abs()) && order == if key in slots then Touch(old(order), key) else old(order)
    {
      hide Valid, LegalKey, Takes, Touch, Without;
      if !isOpen {
        return IllegalState;
      }
      if !LegalKey(key) {
        return IllegalArgument;
      }
      ghost var order0 := order;
      var entry := Lookup(key);
      if entry == null || entry.currentEditor != null {
        return Value(false);
      }
      TouchWithout(order0, key);
      ghost var s := Abs();
      ValidKeys();
      DropEntry(entry);
      DropPlainly(s, key, Abs(), config);
      ValidKeys();
      return Value(true);
    }

    /** The rest of remove, for an entry that is not under edit. */
    method DropEntry(entry: Entry)
      requires Valid() && isOpen && IsEntry(entry, entry.key) && !slots[entry.key].editing
      modifies this`size, this`order, this`entries, this`redundantOpCount, this`slots, this`log, files`disk, files`seen, entry`lengths
      ensures Valid() && Shrunk(entries, old(entries))
      ensures Takes(old(Abs()), Drop(entry.key), Abs(), config) && order == Without(old(order), entry.key)
      ensures redundantOpCount == old(redundantOpCount) + 1
    {
      hide JournalOf, Sound, Objects, Handles, Idle, Takes;
      ghost var s, order0, size0 := Abs(), order, size;
      ForgetFiles(entry);
      redundantOpCount := redundantOpCount + 1;
      Append(JournalText.Remove(entry.key));
      Dropped(s, entry.key, order0, size0);
    }

    lemma Dropped(s: State, key: string, order0: seq<string>, size0: int)
      requires Objects() && Handles() && Journalled() && isOpen
      requires Sound(s, order0, size0, config) && key in s.slots && !s.slots[key].editing
      requires slots == s.slots - {key} && log == s.log + [JournalText.Remove(key)] && base == s.base
      requires order == Without(order0, key) && size == size0 - Sum(s.slots[key].lengths)
      ensures Valid() && Takes(s, Drop(key), Abs(), config)
    {
      hide JournalOf, Objects, Handles, Journalled, Sound, Takes;
      DropKeeps(order0, s, key, size0, config);
    }

    /** The clean files go, and their bytes with them. */
    method ForgetFiles(entry: Entry)
      requires Objects() && Handles() && entry.key in entries && entries[entry.key] == entry && !Editing(slots, entry.key)
      modifies this`size, this`order, this`entries, this`slots, entry`lengths
      ensures Objects() && Handles() && Shrunk(entries, old(entries))
      ensures slots == old(slots) - {entry.key} && order == Without(old(order), entry.key)
      ensures size == old(size) - Sum(old(slots)[entry.key].lengths)
    {
      RemoveEntry(entry.key);
      ZeroLengths(entry);
    }

    method ZeroLengths(entry: Entry)
      modifies this`size, entry`lengths
      ensures size == old(size) - Sum(old(entry.lengths))
    {
      ghost var ls0 := entry.lengths;
      for i := 0 to |entry.lengths|
        invariant |entry.lengths| == |ls0| && forall j :: i <= j < |ls0| ==> entry.lengths[j] == ls0[j]
        invariant forall j :: 0 <= j < i ==> entry.lengths[j] == 0
        invariant size == old(size) - Sum(ls0) + Sum(entry.lengths)
      {
        SumChanged(entry.lengths, i, 0);
        size := size - entry.lengths[i];
        entry.lengths := entry.lengths[i := 0];
      }
      assert entry.lengths == Zeros(|ls0|);
      SumZeros(|ls0|);
    }

    /** get: a snapshot of the entry, if it was published and its files are there. */
    method Get(key: string, filesPresent: bool) returns (r: Outcome<Option<Snapshot>>)
      requires Valid()
      modifies this`order, this`redundantOpCount, this`log, files`disk, files`seen
      ensures Valid()
      ensures r != NoSuchElement && (r == IllegalState <==> !isOpen)
      ensures r == IllegalArgument <==> isOpen && !LegalKey(key)
      ensures r.Value? ==> order == if key in slots then Touch(old(order), key) else old(order)
      ensures r.Value? ==> (r.value.Some? <==> key in slots && slots[key].readable && filesPresent)
      ensures r.Value? && r.value.Some? ==>
        && Takes(old(Abs()), JournalRun.Get(key), Abs(), config) && log == old(log) + [Read(key)]
        && r.value.value == Snapshot(key, entries[key].sequenceNumber)
      ensures !(r.Value? && r.value.Some?) ==> Abs() == old(Abs()) && (!r.Value? ==> order == old(order))
      ensures redundantOpCount == old(redundantOpCount) + if r.Value? && r.value.Some? then 1 else 0
    {
      hide Valid, LegalKey, Takes, Touch;
      if !isOpen {
        return IllegalState;
      }
      if !LegalKey(key) {
        return IllegalArgument;
      }
      var entry := Lookup(key);
      if entry == null || !entry.readable || !filesPresent {
        return Value(None);
      }
      LogRead(key);
      GetPlainly(old(Abs()), key, Abs(), config);
      return Value(Some(Snapshot(key, entry.sequenceNumber)));
    }

    method LogRead(key: string)
      requires Valid() && isOpen && key in slots && slots[key].readable
      modifies this`redundantOpCount, this`log, files`disk, files`seen
      ensures Valid() && Takes(old(Abs()), JournalRun.Get(key), Abs(), config) && redundantOpCount == old(redundantOpCount) + 1
    {
      hide JournalOf, Sound, Idle, Takes;
      GetKeeps(order, Abs(), key, size, config);
      redundantOpCount := redundantOpCount + 1;
      Append(Read(key));
    }

    // ----- ending an edit -----

    /** completeEdit: publish the edit, or drop it. */
    method CompleteEdit(editor: Editor, success: bool, dirty: seq<Option<nat>>) returns (r: Outcome<()>)
      requires Valid() && Issued(editor) && Reports(dirty, config)
      modifies this`size, this`order, this`entries, this`redundantOpCount, this`nextSequenceNumber, this`slots, this`log, files`disk, files`seen
      modifies editor.entry`lengths, editor.entry`readable, editor.entry`currentEditor, editor.entry`sequenceNumber
      ensures Valid() && (r == Value(()) || r == IllegalState) && Shrunk(entries, old(entries))
      ensures old(editor.entry.currentEditor) != editor ==>
        r == IllegalState && Abs() == old(Abs()) && order == old(order) && redundantOpCount == old(redundantOpCount)
      ensures old(editor.entry.currentEditor) == editor ==>
        Completes(old(Abs()), editor.entry.key, success, editor.written, dirty, Abs(), r, config)
      ensures old(editor.entry.currentEditor) == editor ==>
        && order == CompleteOrder(old(order), old(slots), editor.entry.key, success, editor.written, dirty)
        && redundantOpCount == old(redundantOpCount) + 1 && editor.entry.currentEditor == null
      ensures old(editor.entry.currentEditor) == editor ==> isOpen && LegalKey(editor.entry.key) && (!success ==> r == Value(()))
      ensures old(editor.entry.currentEditor) == editor && success && (old(editor.entry.readable) || (forall i :: 0 <= i < |dirty| ==> editor.written[i] && dirty[i].Some?)) ==>
        && r == Value(()) && editor.entry.key in entries && editor.entry.readable && |editor.entry.lengths| == |dirty| == |old(editor.entry.lengths)|
        && forall i :: 0 <= i < |dirty| ==>
             && (dirty[i] == None ==> editor.entry.lengths[i] == old(editor.entry.lengths)[i])
             && (dirty[i].Some? ==> editor.entry.lengths[i] == dirty[i].value)
      ensures old(editor.entry.currentEditor) == editor && !success && old(editor.entry.readable) ==>
        editor.entry.key in entries && editor.entry.readable && editor.entry.lengths == old(editor.entry.lengths)
      ensures old(editor.entry.currentEditor) == editor && !old(editor.entry.readable) && !(success && forall i :: 0 <= i < |dirty| ==> editor.written[i] && dirty[i].Some?) ==>
        editor.entry.key !in entries
      ensures old(editor.entry.currentEditor) == editor ==>
        && log == old(log) + [if editor.entry.key in entries then Clean(editor.entry.key, editor.entry.lengths) else JournalText.Remove(editor.entry.key)]
        && forall k :: k != editor.entry.key ==> (k in entries <==> k in old(entries))
      ensures old(editor.entry.currentEditor) == editor && editor.entry.key in entries ==> entries[editor.entry.key] == editor.entry
      ensures Renumbered(editor.entry.sequenceNumber, nextSequenceNumber, old(editor.entry.sequenceNumber), old(nextSequenceNumber),
        old(editor.entry.currentEditor) == editor && success && Publishes(old(slots)[editor.entry.key], editor.written, dirty))
    {
      hide JournalOf, Sound, Objects, Handles, Journalled, Idle, Takes;
      var entry := editor.entry;
      if entry.currentEditor != editor {
        return IllegalState;
      }
      OpenEntry(editor);
      EditedOpen(entry.key);
      ghost var s := Abs();
      if success {
        r := CompletePublishing(entry, editor.written, dirty);
      } else {
        AbortEdit(entry);
        r := Value(());
      }
      EditEnded(s, old(order), old(size), entry, success, editor.written, dirty, r);
    }

    /** The end of an edit, in terms of the entry. */
    lemma EditEnded(s: State, order0: seq<string>, size0: int, entry: Entry, success: bool, written: seq<bool>,
                    dirty: seq<Option<nat>>, r: Outcome<()>)
      requires Objects() && Sound(s, order0, size0, config) && Completes(s, entry.key, success, written, dirty, Abs(), r, config)
      requires |written| == |dirty| == config.valueCount && (entry.key in entries ==> entries[entry.key] == entry)
      ensures var slot := s.slots[entry.key]; var published := slot.readable || (forall i :: 0 <= i < |dirty| ==> written[i] && dirty[i].Some?);
        && |slot.lengths| == |dirty| && (entry.key in entries <==> slot.readable || (success && published))
        && (entry.key in entries ==> entry.readable && |entry.lengths| == |dirty| && forall i :: 0 <= i < |dirty| ==>
             entry.lengths[i] == if success && dirty[i].Some? then dirty[i].value else slot.lengths[i])
        && (success && published ==> r == Value(()))
        && log == s.log + [if entry.key in entries then Clean(entry.key, entry.lengths) else JournalText.Remove(entry.key)]
        && forall k :: k != entry.key ==> (k in entries <==> k in s.slots)
    {
      hide Sound, Takes;
      SlotSound(s, order0, size0, config, entry.key);
      CompletesPlainly(s, entry.key, success, written, dirty, Abs(), r, config);
      if entry.key in entries {
        EntryFields(entry.key);
      }
    }

    method CompletePublishing(entry: Entry, written: seq<bool>, dirty: seq<Option<nat>>) returns (r: Outcome<()>)
      requires Valid() && isOpen && IsEntry(entry, entry.key) && slots[entry.key].editing
      requires |written| == config.valueCount && Reports(dirty, config)
      modifies this`size, this`order, this`entries, this`redundantOpCount, this`nextSequenceNumber, this`slots, this`log, files`disk, files`seen, entry`lengths, entry`readable, entry`currentEditor, entry`sequenceNumber
      ensures Valid() && Completes(old(Abs()), entry.key, true, written, dirty, Abs(), r, config)
      ensures Shrunk(entries, old(entries)) && (r == Value(()) || r == IllegalState) && (entry.key in entries ==> entries[entry.key] == entry)
      ensures order == CompleteOrder(old(order), old(slots), entry.key, true, written, dirty)
      ensures redundantOpCount == old(redundantOpCount) + 1 && entry.currentEditor == null
      ensures Renumbered(entry.sequenceNumber, nextSequenceNumber, old(entry.sequenceNumber), old(nextSequenceNumber),
        Publishes(old(slots)[entry.key], written, dirty))
    {
      hide JournalOf, Sound, Objects, Handles, Journalled, Idle, Takes;
      if !entry.readable {
        var missing := FirstMissing(written, dirty);
        if missing < config.valueCount {
          AbortEdit(entry);
          return if written[missing] then Value(()) else IllegalState;
        }
      }
      PublishEdit(entry, dirty);
      return Value(());
    }

    /** The checks of a first publication: the first value that was not written, or whose file is not
        there. */
    method FirstMissing(written: seq<bool>, dirty: seq<Option<nat>>) returns (i: nat)
      requires |written| == |dirty| == config.valueCount
      ensures i <= config.valueCount && forall j :: 0 <= j < i ==> written[j] && dirty[j].Some?
      ensures i < config.valueCount ==> !written[i] || dirty[i] == None
    {
      i := 0;
      while i < config.valueCount && written[i] && dirty[i].Some?
        invariant i <= config.valueCount && forall j :: 0 <= j < i ==> written[j] && dirty[j].Some?
      {
        i := i + 1;
      }
    }

    lemma OpenEntry(editor: Editor)
      requires Objects() && Handles() && Issued(editor) && editor.entry.currentEditor == editor
      ensures IsEntry(editor.entry, editor.entry.key) && slots[editor.entry.key].editing && entries.Keys == slots.Keys
    {
    }

    lemma EditedOpen(key: string)
      requires Valid() && key in slots && slots[key].editing
      ensures isOpen && LegalKey(key)
    {
      SlotSound(Abs(), order, size, config, key);
    }

    method PublishEdit(entry: Entry, dirty: seq<Option<nat>>)
      requires Valid() && isOpen && IsEntry(entry, entry.key) && slots[entry.key].editing && Reports(dirty, config)
      modifies this`size, this`redundantOpCount, this`nextSequenceNumber, this`slots, this`log, files`disk, files`seen, entry`lengths, entry`readable, entry`currentEditor, entry`sequenceNumber
      ensures Valid() && Takes(old(Abs()), Commit(entry.key, NewLengths(old(slots)[entry.key].lengths, dirty)), Abs(), config)
      ensures entry.currentEditor == null && redundantOpCount == old(redundantOpCount) + 1
      ensures entry.sequenceNumber == old(nextSequenceNumber) && nextSequenceNumber == old(nextSequenceNumber) + 1
    {
      hide JournalOf, Sound, Objects, Handles, Journalled, Idle, Takes;
      ghost var s, size0 := Abs(), size;
      SlotSound(s, order, size, config, entry.key);
      PublishValues(entry, dirty);
      Append(Clean(entry.key, entry.lengths));
      Published(s, entry.key, dirty, size0);
    }

    method PublishValues(entry: Entry, dirty: seq<Option<nat>>)
      requires Objects() && entry.key in entries && entries[entry.key] == entry && |entry.lengths| == |dirty|
      modifies this`size, this`redundantOpCount, this`nextSequenceNumber, this`slots, entry`lengths, entry`readable, entry`currentEditor, entry`sequenceNumber
      ensures Objects() && entry.lengths == NewLengths(old(slots)[entry.key].lengths, dirty) && (old(Handles()) ==> Handles())
      ensures slots == old(slots)[entry.key := Slot(true, false, NewLengths(old(slots)[entry.key].lengths, dirty))]
      ensures size == old(size) - Sum(old(slots)[entry.key].lengths) + Sum(NewLengths(old(slots)[entry.key].lengths, dirty))
      ensures entry.currentEditor == null && redundantOpCount == old(redundantOpCount) + 1
      ensures entry.sequenceNumber == old(nextSequenceNumber) && nextSequenceNumber == old(nextSequenceNumber) + 1
    {
      hide NewLengths, Sum;
      ghost var m, ls := slots, NewLengths(entry.lengths, dirty);
      UpdateLengths(entry, dirty);
      Publish(entry);
      UpdateTwice(m, entry.key, m[entry.key].(lengths := ls), Slot(true, false, ls));
    }

    lemma Published(s: State, key: string, dirty: seq<Option<nat>>, size0: int)
      requires Objects() && Handles() && Journalled() && isOpen && Reports(dirty, config)
      requires Sound(s, order, size0, config) && Editing(s.slots, key)
      requires var ls := NewLengths(s.slots[key].lengths, dirty);
        && slots == s.slots[key := Slot(true, false, ls)] && log == s.log + [Clean(key, ls)] && base == s.base
        && size == size0 - Sum(s.slots[key].lengths) + Sum(ls)
      ensures Valid() && Takes(s, Commit(key, NewLengths(s.slots[key].lengths, dirty)), Abs(), config)
    {
      hide JournalOf, Objects, Handles, Journalled, Sound, Takes;
      SlotSound(s, order, size0, config, key);
      NewLengthsLegal(s.slots[key].lengths, dirty, config);
      CommitKeeps(order, s, key, NewLengths(s.slots[key].lengths, dirty), size0, config);
    }

    method AbortEdit(entry: Entry)
      requires Valid() && isOpen && IsEntry(entry, entry.key) && slots[entry.key].editing
      modifies this`order, this`entries, this`redundantOpCount, this`slots, this`log, files`disk, files`seen, entry`currentEditor
      ensures Valid() && Takes(old(Abs()), Abort(entry.key), Abs(), config) && order == AbortOrder(old(order), old(slots), entry.key)
      ensures entry.currentEditor == null && redundantOpCount == old(redundantOpCount) + 1
      ensures entry.key in entries ==> entries[entry.key] == entry
      ensures Shrunk(entries, old(entries))
    {
      hide JournalOf, Sound, Objects, Handles, Journalled, Idle, Takes;
      if entry.readable {
        RestoreEntry(entry);
      } else {
        ForgetEntry(entry);
      }
    }

    /** The published values are still good. */
    method RestoreEntry(entry: Entry)
      requires Valid() && isOpen && IsEntry(entry, entry.key) && slots[entry.key].editing && entry.readable
      modifies this`redundantOpCount, this`slots, this`log, files`disk, files`seen, entry`currentEditor
      ensures Valid() && Takes(old(Abs()), Abort(entry.key), Abs(), config)
      ensures entry.currentEditor == null && redundantOpCount == old(redundantOpCount) + 1
    {
      hide JournalOf, Sound, Objects, Handles, Journalled, Idle, Takes;
      ghost var s := Abs();
      ReleaseEditor(entry);
      Append(Clean(entry.key, entry.lengths));
      Restored(s, entry.key);
    }

    /** The entry was never published. */
    method ForgetEntry(entry: Entry)
      requires Valid() && isOpen && IsEntry(entry, entry.key) && slots[entry.key].editing && !entry.readable
      modifies this`order, this`entries, this`redundantOpCount, this`slots, this`log, files`disk, files`seen, entry`currentEditor
      ensures Valid() && Takes(old(Abs()), Abort(entry.key), Abs(), config) && order == Without(old(order), entry.key)
      ensures Shrunk(entries, old(entries))
      ensures entry.currentEditor == null && redundantOpCount == old(redundantOpCount) + 1 && entry.key !in entries
    {
      hide JournalOf, Sound, Objects, Handles, Journalled, Idle, Takes;
      ghost var s, order0 := Abs(), order;
      ReleaseEditor(entry);
      RemoveEntry(entry.key);
      Append(JournalText.Remove(entry.key));
      Forgotten(s, entry.key, order0);
    }

    lemma Restored(s: State, key: string)
      requires Objects() && Handles() && Journalled() && isOpen
      requires Sound(s, order, size, config) && Editing(s.slots, key) && s.slots[key].readable
      requires slots == s.slots[key := s.slots[key].(editing := false)] && log == s.log + [Clean(key, s.slots[key].lengths)] && base == s.base
      ensures Valid() && Takes(s, Abort(key), Abs(), config)
    {
      hide JournalOf, Objects, Handles, Journalled, Sound, Takes;
      RestoreKeeps(order, s, key, size, config);
    }

    lemma Forgotten(s: State, key: string, order0: seq<string>)
      requires Objects() && Handles() && Journalled() && isOpen
      requires Sound(s, order0, size, config) && Editing(s.slots, key) && !s.slots[key].readable && order == Without(order0, key)
      requires slots == s.slots - {key} && log == s.log + [JournalText.Remove(key)] && base == s.base
      ensures Valid() && Takes(s, Abort(key), Abs(), config)
    {
      hide JournalOf, Objects, Handles, Journalled, Sound, Takes;
      ForgetKeeps(order0, s, key, size, config);
    }

    /** remove, right after the edit of the entry was dropped. */
    method RemoveFailed(key: string, ghost s0: State)
      requires Valid() && isOpen && LegalKey(key) && Takes(s0, Abort(key), Abs(), config)
      modifies this`size, this`order, this`entries, this`redundantOpCount, this`slots, this`log, files`disk, files`seen, Named(key)`lengths
      ensures Valid() && key !in slots && Discards(s0, key, Abs(), config)
      ensures Shrunk(entries, old(entries)) && order == Without(old(order), key)
      ensures redundantOpCount == old(redundantOpCount) + if key in old(slots) then 1 else 0
    {
      hide JournalOf, Sound, Idle, Takes, Discards, LegalKey;
      ghost var s1 := Abs();
      NotEditing(s0, key, s1, config);
      AbsentOrder(key);
      var removed := Remove(key);
      DiscardedBy(s0, key, s1, Abs(), config);
    }

    lemma AbsentOrder(key: string)
      requires Valid()
      ensures key !in slots ==> Without(order, key) == order
    {
      WithoutMembers(order, key);
    }

    method CommitFailed(editor: Editor, dirty: seq<Option<nat>>) returns (r: Outcome<()>)
      requires Valid() && Issued(editor) && Reports(dirty, config)
      modifies this`size, this`order, this`entries, this`redundantOpCount, this`nextSequenceNumber, this`slots, this`log, files`disk, files`seen
      modifies editor.entry`lengths, editor.entry`readable, editor.entry`currentEditor, editor.entry`sequenceNumber
      ensures Valid() && (r == Value(()) || r == IllegalState) && Shrunk(entries, old(entries))
      ensures old(editor.entry.currentEditor) != editor ==>
        r == IllegalState && Abs() == old(Abs()) && order == old(order) && redundantOpCount == old(redundantOpCount)
      ensures old(editor.entry.currentEditor) == editor ==>
        && r == Value(()) && editor.entry.key !in slots && editor.entry.key !in entries
        && Discards(old(Abs()), editor.entry.key, Abs(), config)
      ensures old(editor.entry.currentEditor) == editor ==>
        && order == Without(old(order), editor.entry.key) && editor.entry.currentEditor == null
        && redundantOpCount == old(redundantOpCount) + if Readable(old(slots), editor.entry.key) then 2 else 1
      ensures editor.entry.sequenceNumber == old(editor.entry.sequenceNumber) && nextSequenceNumber == old(nextSequenceNumber)
    {
      hide Valid, Objects, Handles, OpenOn, Issued, Reports, JournalOf, Sound, Idle, Takes, Completes, Discards, LegalKey;
      r := CompleteEdit(editor, false, dirty);
      if r == IllegalState {
        return;
      }
      FailedAborts(old(Abs()), editor.entry.key, editor.written, dirty, Abs(), r, config);
      WithoutTwice(old(order), editor.entry.key);
      RemoveFailed(editor.entry.key, old(Abs()));
      ValidKeys();
    }

    /** Editor.commit: publish, unless a write failed; then the entry goes altogether. */
    method CommitEdit(editor: Editor, dirty: seq<Option<nat>>) returns (r: Outcome<()>)
      requires Valid() && Issued(editor) && Reports(dirty, config)
      modifies this`size, this`order, this`entries, this`redundantOpCount, this`nextSequenceNumber, this`slots, this`log, files`disk, files`seen
      modifies editor.entry`lengths, editor.entry`readable, editor.entry`currentEditor, editor.entry`sequenceNumber, editor`committed
      ensures Valid() && (r == Value(()) || r == IllegalState) && Shrunk(entries, old(entries))
      ensures old(editor.entry.currentEditor) != editor ==>
        r == IllegalState && Abs() == old(Abs()) && order == old(order) && redundantOpCount == old(redundantOpCount)
      ensures old(editor.entry.currentEditor) == editor ==> editor.entry.currentEditor == null
      ensures old(editor.entry.currentEditor) == editor && !editor.hasErrors ==>
        && Completes(old(Abs()), editor.entry.key, true, editor.written, dirty, Abs(), r, config)
        && order == CompleteOrder(old(order), old(slots), editor.entry.key, true, editor.written, dirty)
        && redundantOpCount == old(redundantOpCount) + 1
      ensures old(editor.entry.currentEditor) == editor && !editor.hasErrors ==>
        (old(editor.entry.readable) || forall i :: 0 <= i < |dirty| ==> editor.written[i] && dirty[i].Some?) ==>
        && r == Value(()) && editor.entry.key in entries && editor.entry.readable && |editor.entry.lengths| == |dirty| == |old(editor.entry.lengths)|
        && forall i :: 0 <= i < |dirty| ==>
             && (dirty[i] == None ==> editor.entry.lengths[i] == old(editor.entry.lengths)[i])
             && (dirty[i].Some? ==> editor.entry.lengths[i] == dirty[i].value)
      ensures old(editor.entry.currentEditor) == editor && editor.entry.key in entries ==>
        !editor.hasErrors && entries[editor.entry.key] == editor.entry && log == old(log) + [Clean(editor.entry.key, editor.entry.lengths)]
      ensures old(editor.entry.currentEditor) == editor && !editor.hasErrors ==>
        forall k :: k != editor.entry.key ==> (k in entries <==> k in old(entries))
      ensures old(editor.entry.currentEditor) == editor && !old(editor.entry.readable) ==>
        !(forall i :: 0 <= i < |dirty| ==> editor.written[i] && dirty[i].Some?) ==> editor.entry.key !in entries
      ensures old(editor.entry.currentEditor) == editor && editor.hasErrors ==>
        && r == Value(()) && editor.entry.key !in slots && editor.entry.key !in entries && Discards(old(Abs()), editor.entry.key, Abs(), config)
        && order == Without(old(order), editor.entry.key)
        && redundantOpCount == old(redundantOpCount) + if Readable(old(slots), editor.entry.key) then 2 else 1
      ensures Renumbered(editor.entry.sequenceNumber, nextSequenceNumber, old(editor.entry.sequenceNumber), old(nextSequenceNumber),
        old(editor.entry.currentEditor) == editor && !editor.hasErrors && Publishes(old(slots)[editor.entry.key], editor.written, dirty))
      ensures editor.committed == (old(editor.committed) || r.Value?)
    {
      hide Valid, Objects, Handles, OpenOn, Issued, Reports, JournalOf, Sound, Idle, Takes, Completes, Discards, LegalKey;
      if editor.hasErrors {
        r := CommitFailed(editor, dirty);
      } else {
        r := CompleteEdit(editor, true, dirty);
      }
      if r == IllegalState {
        return;
      }
      editor.committed := true;
    }

    // ----- trimming, rebuilding, closing -----

    /** trimToSize: evict the eldest entries until the size fits; those under edit only move to the
        end. This ends exactly when the entries under edit alone fit (TrimTerminates), or when there are
        none; with a negative limit the cache is empty at last, and the iterator throws. */
    method TrimToSize() returns (r: Outcome<()>, ghost n: nat)
      requires Valid() && isOpen && Trimmable(order, slots, maxSize)
      modifies this`size, this`order, this`entries, this`redundantOpCount, this`slots, this`log, files`disk, files`seen, entries.Values`lengths
      ensures Valid() && Shrunk(entries, old(entries))
      ensures r == if maxSize >= 0 then Value(()) else NoSuchElement
      ensures maxSize >= 0 ==> size <= maxSize && Trims(old(Abs()), old(order), maxSize, Abs(), order, n)
      ensures maxSize < 0 ==> order == [] && Abs() == DropAll(old(Abs()), Unedited(old(order), old(slots)))
      ensures redundantOpCount + |order| == old(redundantOpCount + |order|)
    {
      hide Shrunk, JournalOf, Sound, Takes, TrimmedSoFar, Trims, Objects, Handles, Journalled, LegalKey;
      n := 0;
      ghost var s0, order0, count0, values := Abs(), order, redundantOpCount + |order|, entries.Values;
      ValidFacts();
      TrimStart(s0, order0, maxSize);
      ShrunkMore(entries, entries, old(entries));
      while size > maxSize
        invariant Valid() && TrimmedSoFar(s0, order0, maxSize, n, Abs(), order) && entries.Values <= values && Shrunk(entries, old(entries))
        invariant redundantOpCount + |order| == count0
        modifies this`size, this`order, this`entries, this`redundantOpCount, this`slots, this`log, files`disk, files`seen, values`lengths
        decreases |order0| - n
      {
        ValidFacts();
        TrimNext(s0, order0, maxSize, n, Abs(), order);
        if order == [] {
          return NoSuchElement, n;
        }
        ghost var entries1 := entries;
        TrimOne();
        ShrunkMore(entries, entries1, old(entries));
        n := n + 1;
      }
      ValidFacts();
      TrimEnd(s0, order0, maxSize, n, Abs(), order);
      return Value(()), n;
    }

    lemma ValidFacts()
      requires Valid()
      ensures Lists(order, slots) && NonNegative(slots) && size == Total(order, slots)
      ensures forall k :: k in slots ==> LegalKey(k)
    {
    }

    lemma ValidKeys()
      requires Valid()
      ensures entries.Keys == slots.Keys
    {
    }

    lemma ValidLengths(key: string)
      requires Valid() && key in slots
      ensures |slots[key].lengths| == config.valueCount
    {
      SlotSound(Abs(), order, size, config, key);
    }

    /** The size of a cache with one entry. */
    lemma OneEntry(key: string)
      requires Valid() && entries.Keys == {key}
      ensures size == Sum(entries[key].lengths)
    {
      ValidFacts();
      assert key in order;
      assert forall k :: k in order ==> k == key;
      assert order == [key];
    }

    lemma ValidEntry(key: string)
      requires Valid() && key in entries
      ensures IsEntry(entries[key], key)
    {
    }

    /** The eldest entry goes, or moves to the end. */
    method TrimOne()
      requires Valid() && isOpen && order != [] && order[0] in slots
      modifies this`size, this`order, this`entries, this`redundantOpCount, this`slots, this`log, files`disk, files`seen, entries.Values`lengths
      ensures Valid() && Shrunk(entries, old(entries))
      ensures var k, s := old(order)[0], old(Abs());
        && (redundantOpCount + |order| == old(redundantOpCount + |order|))
        && if s.slots[k].editing then Abs() == s && order == Touch(old(order), k)
        else Abs() == State(s.slots - {k}, s.log + [JournalText.Remove(k)], s.base) && order == Without(old(order), k)
    {
      hide JournalOf, Sound, LegalKey, Objects, Journalled;
      ValidFacts();
      var toEvict := order[0];
      TouchLength(order, toEvict, slots);
      var removed := Remove(toEvict);
    }

    /** rebuildJournal: the records of the entries go to a new file, which replaces the journal. */
    method RebuildJournal()
      requires Objects() && Lists(order, slots)
      modifies this`isOpen, this`log, this`base, files`disk, files`seen
      ensures isOpen && Objects() && Journalled() && log == CompactLog(order, slots) && base == |order|
      ensures old(files.seen) <= files.seen
      ensures Between(files.seen, |old(files.seen)|, Surviving(old(files.disk)), Some(Rebuilt(order, slots, config)))
    {
      hide JournalOf, Objects, Between;
      isOpen := false;
      WriteEntries();
      ghost var seen := files.seen;
      files.Swap();
      BetweenBoth(seen, files.seen, |old(files.seen)|, Surviving(old(files.disk)), Some(Rebuilt(order, slots, config)));
      log, base, isOpen := CompactLog(order, slots), |order|, true;
    }

    method WriteEntries()
      requires Objects() && Lists(order, slots)
      modifies files`disk, files`seen
      ensures files.disk == old(files.disk).(tmp := Some(Rebuilt(order, slots, config)))
      ensures old(files.seen) <= files.seen
      ensures Between(files.seen, |old(files.seen)|, Surviving(old(files.disk)), Surviving(old(files.disk)))
    {
      hide JournalOf, Header, LinesOf, Unlines, Rebuilt;
      files.Put(files.disk.(tmp := Some("")));
      files.WriteTmp(Header(config.appVersion, config.valueCount));
      RebuiltStart(order, slots, config);
      for i := 0 to |order|
        invariant Objects() && Lists(order, slots) && files.disk == old(files.disk).(tmp := Some(Rebuilt(order[..i], slots, config)))
        invariant old(files.seen) <= files.seen
        invariant Between(files.seen, |old(files.seen)|, Surviving(old(files.disk)), Surviving(old(files.disk)))
      {
        RebuiltNext(order, slots, config, i);
        WriteEntry(entries[order[i]]);
      }
      assert order[..|order|] == order;
    }

    method WriteEntry(entry: Entry)
      requires Objects() && entry.key in entries && entries[entry.key] == entry && files.disk.tmp.Some?
      modifies files`disk, files`seen
      ensures files.disk == old(files.disk).(tmp := Some(old(files.disk).tmp.value + (Line(CompactRecord(entry.key, slots[entry.key])) + [LF])))
      ensures old(files.seen) <= files.seen
      ensures Between(files.seen, |old(files.seen)|, Surviving(old(files.disk)), Surviving(old(files.disk)))
    {
      if entry.currentEditor != null {
        files.WriteTmp(Line(Dirty(entry.key)) + [LF]);
      } else {
        files.WriteTmp(Line(Clean(entry.key, entry.lengths)) + [LF]);
      }
    }

    /** The cleanup that calls ask for: trimming, and a rebuild if there are enough redundant records by
        then. */
    method Cleanup() returns (r: Outcome<()>, ghost n: nat)
      requires Valid() && (isOpen ==> Trimmable(order, slots, maxSize))
      modifies this`size, this`order, this`entries, this`isOpen, this`redundantOpCount, this`slots, this`log, this`base, files`disk, files`seen, entries.Values`lengths
      ensures Valid() && isOpen == old(isOpen) && Shrunk(entries, old(entries))
      ensures r == if isOpen && maxSize < 0 then NoSuchElement else Value(())
      ensures !isOpen ==> Abs() == old(Abs()) && order == old(order)
      ensures isOpen && maxSize >= 0 ==> size <= maxSize
      ensures isOpen && maxSize >= 0 ==>
        CleansUp(old(Abs()), old(order), old(redundantOpCount), maxSize, Abs(), order, redundantOpCount, n, config)
      ensures isOpen && maxSize >= 0 ==> var redundant := old(redundantOpCount) + |old(order)| - |order|;
        if redundant >= 2000 && redundant >= |order| then redundantOpCount == 0 && |log| == |order|
        else redundantOpCount == redundant && old(log) <= log
    {
      hide JournalOf, Sound, Takes, Trims, Objects, Handles, Journalled, Idle;
      if !isOpen {
        return Value(()), 0;
      }
      r, n := TrimToSize();
      if r == NoSuchElement {
        return;
      }
      if JournalRebuildRequired() {
        CompactJournal();
        redundantOpCount := 0;
      }
      CleansUpPlainly(old(Abs()), old(order), old(redundantOpCount), maxSize, Abs(), order, redundantOpCount, n, config);
    }

    /** A rebuild between calls: whatever moment a crash picks, opening recovers the clean map. */
    method CompactJournal()
      requires Valid() && isOpen
      modifies this`isOpen, this`log, this`base, files`disk, files`seen
      ensures Valid() && isOpen && Takes(old(Abs()), Compact(order), Abs(), config)
      ensures old(files.seen) <= files.seen
      ensures forall i :: |old(files.seen)| <= i < |files.seen| ==> CleanAfterOpen(files.seen[i], config) == CleanMap(slots)
    {
      hide JournalOf, Sound, Takes, CleanAfterOpen;
      ghost var s, d0 := Abs(), files.disk;
      ValidFacts();
      StoredClean();
      RebuildJournal();
      Compacted(s, d0);
    }

    lemma StoredClean()
      requires Valid()
      ensures CleanAfterOpen(files.disk, config) == CleanMap(slots)
    {
      JournalledClean(Abs(), files.disk, config);
    }

    lemma Compacted(s: State, d0: Disk)
      requires Objects() && Handles() && Journalled() && isOpen && Sound(s, order, size, config) && CleanAfterOpen(d0, config) == CleanMap(slots)
      requires slots == s.slots && log == CompactLog(order, slots) && base == |order|
      ensures Valid() && Takes(s, Compact(order), Abs(), config)
      ensures forall d :: Surviving(d) == Surviving(d0) || Surviving(d) == Some(Rebuilt(order, slots, config)) ==>
        CleanAfterOpen(d, config) == CleanMap(slots)
    {
      CompactKeeps(order, s, size, config);
      forall d | Surviving(d) == Surviving(d0) || Surviving(d) == Some(Rebuilt(order, slots, config))
        ensures CleanAfterOpen(d, config) == CleanMap(slots)
      {
        RebuildAtomic(order, s, d0, d, config);
      }
    }

    /** All edits are dropped, eldest entry first. */
    method AbortAll()
      requires Valid() && isOpen
      modifies this`order, this`entries, this`redundantOpCount, this`slots, this`log, files`disk, files`seen, entries.Values`currentEditor
      ensures Valid() && Idle(slots) && entries.Values <= old(entries.Values)
      ensures slots == Aborted(old(slots), old(order)) && order == PublishedKeys(old(order), old(slots))
      ensures Reaches(old(Abs()), Aborts(Edited(old(order), old(slots))), Abs(), config)
    {
      hide Valid, Objects, Handles, JournalOf, Sound, Idle, Lists, PublishedKeys, Aborted, Reaches, Edited;
      var keys := order;
      ghost var m, values, s0 := slots, entries.Values, Abs();
      ValidFacts();
      AbortFirst(keys, s0, config);
      AbortLast(keys, m);
      for i := 0 to |keys|
        invariant Valid() && entries.Values <= values
        invariant order == PublishedKeys(keys[..i], m) + keys[i..] && slots == Aborted(m, keys[..i])
        invariant Reaches(s0, Aborts(Edited(keys[..i], m)), Abs(), config)
        modifies this`order, this`entries, this`redundantOpCount, this`slots, this`log, files`disk, files`seen, values`currentEditor
      {
        AbortOne(keys, m, s0, i);
      }
    }

    method AbortOne(keys: seq<string>, ghost m: Slots, ghost s0: State, i: nat)
      requires Valid() && isOpen && Lists(keys, m) && i < |keys|
      requires order == PublishedKeys(keys[..i], m) + keys[i..] && slots == Aborted(m, keys[..i])
      requires Reaches(s0, Aborts(Edited(keys[..i], m)), Abs(), config)
      modifies this`order, this`entries, this`redundantOpCount, this`slots, this`log, files`disk, files`seen, entries.Values`currentEditor
      ensures Valid() && entries.Values <= old(entries.Values)
      ensures order == PublishedKeys(keys[..i + 1], m) + keys[i + 1..] && slots == Aborted(m, keys[..i + 1])
      ensures Reaches(s0, Aborts(Edited(keys[..i + 1], m)), Abs(), config)
    {
      hide JournalOf, Sound, Idle, Journalled, PublishedKeys, Without, Aborted, Reaches, Edited;
      ghost var s1 := Abs();
      AbortStep(keys, m, i);
      AbortedMore(m, keys[..i], keys[i]);
      SlotSound(Abs(), order, size, config, keys[i]);
      var entry := entries[keys[i]];
      if entry.currentEditor != null {
        AbortEdit(entry);
      } else {
        SameSlot(slots, keys[i]);
      }
      AbortReached(s0, keys, m, i, s1, Abs(), config);
    }

    /** close: drop all edits, trim, and let go of the journal. */
    method Close() returns (r: Outcome<()>, ghost n: nat)
      requires Valid()
      modifies this`isOpen, this`size, this`order, this`entries, this`redundantOpCount, this`slots, this`log, files`disk, files`seen, entries.Values`currentEditor, entries.Values`lengths
      ensures Valid() && entries.Values <= old(entries.Values)
      ensures r == if old(isOpen) && maxSize < 0 then NoSuchElement else Value(())
      ensures isOpen <==> r == NoSuchElement
      ensures !old(isOpen) ==> Abs() == old(Abs()) && order == old(order)
      ensures old(isOpen) && maxSize >= 0 ==> size <= maxSize && CloseTrims(old(Abs()), old(order), maxSize, Abs(), order, n, config)
      ensures old(isOpen) && maxSize < 0 ==> slots == map[] && order == []
    {
      hide JournalOf, Sound, Objects, Handles, Journalled, Trims, Aborted, PublishedKeys, Idle, Reaches;
      n := 0;
      if !isOpen {
        return Value(()), 0;
      }
      AbortAll();
      IdleEdited(order, slots);
      ghost var s, order1 := Abs(), order;
      r, n := TrimToSize();
      if r == NoSuchElement {
        ValidFacts();
        return;
      }
      TrimIdle(s, order1, maxSize, Abs(), order, n);
      isOpen := false;
    }

    // ----- opening -----

    /** lruEntries.get, and a new entry if there is none. */
    method GetOrCreate(key: string) returns (entry: Entry)
      requires Objects() && Lists(order, slots) && Sized(slots, config.valueCount)
      modifies this`entries, this`order, this`slots
      ensures Objects() && Lists(order, slots) && Sized(slots, config.valueCount)
      ensures key in entries && entries[key] == entry && entry.key == key && slots == old(slots)[key := SlotOr(old(slots), key, config.valueCount)]
      ensures slots == Apply(old(slots), Read(key), config.valueCount) && order == Touch(old(order), key)
      ensures fresh(entries.Values - old(entries.Values)) && (old(Unnumbered()) ==> Unnumbered())
    {
      hide Touch, Without, Lists;
      if key in entries {
        TouchLists(order, key, slots);
        order := Touch(order, key);
        return entries[key];
      }
      NewLists(order, key, slots, config.valueCount);
      entry := AddEntry(key);
    }

    method SetLengths(entry: Entry, parts: seq<string>) returns (ok: bool)
      requires Objects() && entry.key in entries && entries[entry.key] == entry && |entry.lengths| == config.valueCount
      modifies this`slots, entry`lengths
      ensures ok <==> |parts| == config.valueCount && ParseLongs(parts).Some?
      ensures ok ==> Objects() && slots == old(slots)[entry.key := old(slots)[entry.key].(lengths := ParseLongs(parts).value)]
    {
      hide ParseLongs, Objects;
      EntryFields(entry.key);
      ok := ParseLengths(entry, parts);
      if ok {
        slots := slots[entry.key := slots[entry.key].(lengths := entry.lengths)];
        EntryUpdated(entry);
      }
    }

    method ParseLengths(entry: Entry, parts: seq<string>) returns (ok: bool)
      requires |entry.lengths| == config.valueCount
      modifies entry`lengths
      ensures ok <==> |parts| == config.valueCount && ParseLongs(parts).Some?
      ensures ok ==> entry.lengths == ParseLongs(parts).value
    {
      ParseLongsAt(parts);
      if |parts| != config.valueCount {
        return false;
      }
      for i := 0 to |parts|
        invariant |entry.lengths| == |parts|
        invariant forall j :: 0 <= j < i ==> ParseLong(parts[j]) == Some(entry.lengths[j])
      {
        var n := ParseLong(parts[i]);
        if n == None {
          return false;
        }
        entry.lengths := entry.lengths[i := n.value];
      }
      return true;
    }

    /** readJournalLine: the effect of one line on the entries, or false if it is corrupt. */
    method ReadJournalLine(line: string) returns (ok: bool)
      requires Objects() && Lists(order, slots) && Sized(slots, config.valueCount)
      modifies this`entries, this`order, this`slots, entries.Values`lengths, entries.Values`readable, entries.Values`currentEditor
      ensures ok <==> ParseLine(line, config.valueCount).Some?
      ensures ok ==> Objects() && Lists(order, slots) && Sized(slots, config.valueCount)
      ensures ok ==> slots == Apply(old(slots), ParseLine(line, config.valueCount).value, config.valueCount)
      ensures ok ==> order == OrderStep(old(order), ParseLine(line, config.valueCount).value)
      ensures fresh(entries.Values - old(entries.Values)) && (old(Unnumbered()) ==> Unnumbered())
    {
      hide ParseLongs, Split, Lists, Objects, StartsWith, IndexOf, JournalOf;
      var firstSpace := IndexOf(line, ' ', 0);
      if firstSpace == -1 {
        return false;
      }
      var secondSpace := IndexOf(line, ' ', firstSpace + 1);
      var key;
      if secondSpace == -1 {
        key := line[firstSpace + 1..];
        if firstSpace == 6 && StartsWith(line, "REMOVE") {
          WithoutLists(order, key, slots);
          RemoveEntry(key);
          return true;
        }
      } else {
        key := line[firstSpace + 1..secondSpace];
      }
      ok := ReadEntryLine(line, firstSpace, secondSpace, key);
    }

    /** The rest of readJournalLine, for a line that names an entry. */
    method ReadEntryLine(line: string, firstSpace: nat, secondSpace: int, key: string) returns (ok: bool)
      requires Objects() && Lists(order, slots) && Sized(slots, config.valueCount)
      requires firstSpace == IndexOf(line, ' ', 0) < |line| && secondSpace == IndexOf(line, ' ', firstSpace + 1)
      requires key == if secondSpace == -1 then line[firstSpace + 1..] else line[firstSpace + 1..secondSpace]
      requires !(secondSpace == -1 && firstSpace == 6 && StartsWith(line, "REMOVE"))
      modifies this`entries, this`order, this`slots, entries.Values`lengths, entries.Values`readable, entries.Values`currentEditor
      ensures ok <==> ParseLine(line, config.valueCount).Some?
      ensures ok ==> Objects() && Lists(order, slots) && Sized(slots, config.valueCount)
      ensures ok ==> slots == Apply(old(slots), ParseLine(line, config.valueCount).value, config.valueCount)
      ensures ok ==> order == OrderStep(old(order), ParseLine(line, config.valueCount).value)
      ensures fresh(entries.Values - old(entries.Values)) && (old(Unnumbered()) ==> Unnumbered())
    {
      hide ParseLongs, ParseLine, Split, Lists, Objects, StartsWith, IndexOf, JournalOf, Apply, Touch, OrderStep;
      EntryLine(line, config.valueCount);
      EntryStep(order, line, config.valueCount);
      ghost var m := slots;
      var entry := GetOrCreate(key);
      if secondSpace != -1 && firstSpace == 5 && StartsWith(line, "CLEAN") {
        ok := ReadClean(entry, Split(line[secondSpace + 1..]), m);
      } else if secondSpace == -1 && firstSpace == 5 && StartsWith(line, "DIRTY") {
        ReadDirty(entry, m);
        ok := true;
      } else {
        ok := secondSpace == -1 && firstSpace == 4 && StartsWith(line, "READ");
      }
    }

    method ReadClean(entry: Entry, parts: seq<string>, ghost m: Slots) returns (ok: bool)
      requires Objects() && Lists(order, slots) && Sized(slots, config.valueCount)
      requires entry.key in entries && entries[entry.key] == entry && slots == m[entry.key := SlotOr(m, entry.key, config.valueCount)]
      modifies this`slots, entry`lengths, entry`readable, entry`currentEditor
      ensures ok <==> |parts| == config.valueCount && ParseLongs(parts).Some?
      ensures ok ==> Objects() && Lists(order, slots) && Sized(slots, config.valueCount)
      ensures ok ==> slots == Apply(m, Clean(entry.key, ParseLongs(parts).value), config.valueCount)
    {
      hide ParseLongs, JournalOf, Lists;
      ghost var m1 := slots;
      MarkClean(entry);
      ok := SetLengths(entry, parts);
      ParseLongsAt(parts);
      if ok {
        SlotReplaced(order, m, m1, entry.key, slots, config.valueCount);
      }
    }

    method ReadDirty(entry: Entry, ghost m: Slots)
      requires Objects() && Lists(order, slots) && Sized(slots, config.valueCount)
      requires entry.key in entries && entries[entry.key] == entry && slots == m[entry.key := SlotOr(m, entry.key, config.valueCount)]
      modifies this`slots, entry`currentEditor
      ensures Objects() && Lists(order, slots) && Sized(slots, config.valueCount)
      ensures slots == Apply(m, Dirty(entry.key), config.valueCount)
    {
      hide JournalOf, Lists;
      ghost var m1 := slots;
      var editor := InstallEditor(entry.key, entry);
      SlotReplaced(order, m, m1, entry.key, slots, config.valueCount);
    }

    method MarkClean(entry: Entry)
      requires Objects() && entry.key in entries && entries[entry.key] == entry
      modifies this`slots, entry`readable, entry`currentEditor
      ensures Objects() && slots == old(slots)[entry.key := Slot(true, false, entry.lengths)]
    {
      hide Objects;
      EntryFields(entry.key);
      entry.readable := true;
      entry.currentEditor := null;
      slots := slots[entry.key := Slot(true, false, entry.lengths)];
      EntryUpdated(entry);
    }

    /** The five lines of the header. */
    method ReadHeader(reader: StrictLineReader) returns (ok: bool)
      requires reader.Valid() && reader.buf.Length > 0 && !reader.HasUnterminatedLine()
      modifies reader, reader.input, reader.buf
      ensures reader.Valid()
      ensures var lines := Lines(old(reader.Pending())); ok <==> |lines| >= 5 && lines[..5] == HeaderLines(config.appVersion, config.valueCount)
      ensures ok ==> Lines(reader.Pending()) == Lines(old(reader.Pending()))[5..] && Rest(reader.Pending()) == Rest(old(reader.Pending()))
      ensures ok ==> !reader.HasUnterminatedLine()
    {
      hide HeaderLines, Delivered, Lines, Rest;
      var header: seq<string> := [];
      ghost var text := reader.Pending();
      for i := 0 to 5
        invariant reader.Valid() && !reader.HasUnterminatedLine() && |header| == i
        invariant header + Lines(reader.Pending()) == Lines(text) && Rest(reader.Pending()) == Rest(text)
      {
        ghost var s := reader.Pending();
        var line := reader.ReadLine();
        OneLine(s, line, reader.Pending());
        if line == None {
          return false;
        }
        AppendLine(header, line.value, Lines(reader.Pending()));
        header := header + [line.value];
      }
      return header == HeaderLines(config.appVersion, config.valueCount);
    }

    /** The lines behind the header, to the end of the file. */
    method ReadRecords(reader: StrictLineReader) returns (ok: bool, lineCount: nat, ghost records: seq<Record>)
      requires reader.Valid() && reader.buf.Length > 0 && !reader.HasUnterminatedLine()
      requires Objects() && slots == map[] && order == [] && entries == map[]
      modifies reader, reader.input, reader.buf, this`entries, this`order, this`slots
      ensures ok <==> ParseLines(Lines(old(reader.Pending())), config.valueCount).Some?
      ensures ok ==> ParseLines(Lines(old(reader.Pending())), config.valueCount).value == records && |records| == lineCount
      ensures ok ==> Objects() && Lists(order, slots) && Sized(slots, config.valueCount) && slots == Replay(records, config.valueCount)
      ensures ok ==> order == ReplayOrder(records)
      ensures ok ==> (reader.HasUnterminatedLine() <==> Rest(old(reader.Pending())) != "")
      ensures fresh(entries.Values) && Unnumbered()
    {
      hide Objects, Lists, ParseLine, ParseLines, Lines, Rest, Apply, Replay, Delivered, OrderStep, ReplayOrder;
      ghost var text := reader.Pending();
      lineCount, records := 0, [];
      ReadingStarts(text, config.valueCount);
      while true
        invariant reader.Valid() && !reader.HasUnterminatedLine() && fresh(entries.Values) && Unnumbered() && |records| == lineCount
        invariant Objects() && Lists(order, slots) && Sized(slots, config.valueCount) && slots == Replay(records, config.valueCount)
        invariant order == ReplayOrder(records)
        invariant ParseLines(Lines(text), config.valueCount) == Prepend(records, ParseLines(Lines(reader.Pending()), config.valueCount))
        invariant Rest(reader.Pending()) == Rest(text)
        decreases |reader.Pending()|
      {
        ghost var s := reader.Pending();
        var line := reader.ReadLine();
        OneLine(s, line, reader.Pending());
        if line == None {
          ReadingEnds(records, config.valueCount);
          return true, lineCount, records;
        }
        ParseStep(records, line.value, Lines(reader.Pending()), config.valueCount);
        ok := ReadJournalLine(line.value);
        if !ok {
          return;
        }
        ghost var r := ParseLine(line.value, config.valueCount).value;
        ReplayStep(records, r, config.valueCount);
        ReplayOrderStep(records, r);
        lineCount, records := lineCount + 1, records + [r];
      }
    }

    /** readJournal: false if the journal is corrupt. If its last line is broken, the journal is
        rebuilt before anything is appended to it. */
    method ReadJournal(ghost base0: nat) returns (ok: bool, ghost records: seq<Record>)
      requires Objects() && Abs() == State(map[], [], 0) && order == [] && entries == map[] && files.disk.journal.Some?
      modifies this`isOpen, this`entries, this`order, this`slots, this`log, this`base, this`redundantOpCount, files`disk, files`seen
      ensures ReadBack(old(files.disk).journal.value, config.appVersion, config.valueCount) == if ok then Some(records) else None
      ensures !ok ==> files.disk == old(files.disk) && files.seen == old(files.seen)
      ensures ok ==> isOpen && Objects() && Lists(order, slots) && Sized(slots, config.valueCount) && slots == Replay(records, config.valueCount)
      ensures ok ==> order == ReplayOrder(records) && redundantOpCount == |records| - |order|
      ensures ok && Rest(old(files.disk).journal.value) == "" ==> files.disk == old(files.disk) && log == records && base == base0
      ensures ok && Rest(old(files.disk).journal.value) != "" ==> Journalled() && log == CompactLog(order, slots) && base == |order|
      ensures ok ==> old(files.seen) <= files.seen
      ensures ok ==> Between(files.seen, |old(files.seen)|, Surviving(old(files.disk)), Some(Rebuilt(order, slots, config)))
      ensures fresh(entries.Values) && Unnumbered()
    {
      hide Objects, JournalOf, Rest, Replay, ReplayOrder, Rebuilt, ReadBack, Lists, Sized, Unnumbered;
      var lineCount, unterminated;
      ok, lineCount, unterminated, records := ReadText(files.disk.journal.value);
      if !ok {
        return;
      }
      redundantOpCount := lineCount - |order|;
      if unterminated {
        RebuildJournal();
      } else {
        isOpen, log, base := true, records, base0;
      }
    }

    /** The lines of the journal, through a new reader. */
    method ReadText(text: string) returns (ok: bool, lineCount: nat, unterminated: bool, ghost records: seq<Record>)
      requires Objects() && slots == map[] && order == [] && entries == map[]
      modifies this`entries, this`order, this`slots
      ensures ReadBack(text, config.appVersion, config.valueCount) == if ok then Some(records) else None
      ensures ok ==> Objects() && Lists(order, slots) && Sized(slots, config.valueCount) && slots == Replay(records, config.valueCount)
      ensures ok ==> order == ReplayOrder(records) && lineCount == |records| && (unterminated <==> Rest(text) != "")
      ensures fresh(entries.Values) && Unnumbered()
    {
      hide Objects, JournalOf, Lines, Rest, HeaderLines, ParseLines, Replay, ReplayOrder;
      var input := new InputStream(text);
      var reader := new StrictLineReader(input, 8192);
      lineCount, unterminated, records := 0, false, [];
      ok := ReadHeader(reader);
      if !ok {
        return;
      }
      ok, lineCount, records := ReadRecords(reader);
      unterminated := reader.HasUnterminatedLine();
    }

    /** The bytes of an entry count. */
    method AddLengths(entry: Entry)
      modifies this`size
      ensures size == old(size) + Sum(entry.lengths)
    {
      for t := 0 to |entry.lengths|
        invariant size == old(size) + Sum(entry.lengths[..t])
      {
        SumTake(entry.lengths, t);
        size := size + entry.lengths[t];
      }
      assert entry.lengths[..|entry.lengths|] == entry.lengths;
    }

    /** An entry that was under edit goes, with its files. */
    method DiscardEntry(entry: Entry)
      requires Objects() && entry.key in entries && entries[entry.key] == entry
      modifies this`order, this`entries, this`slots, entry`currentEditor
      ensures Objects() && slots == old(slots) - {entry.key} && order == Without(old(order), entry.key) && entries.Values <= old(entries.Values)
    {
      entry.currentEditor := null;
      entries := entries - {entry.key};
      order := Without(order, entry.key);
      slots := slots - {entry.key};
    }

    /** processJournal: the initial size, and what is left of the edits goes. */
    method ProcessJournal()
      requires Objects() && Lists(order, slots)
      modifies this`size, this`order, this`entries, this`slots, files`disk, files`seen, entries.Values`currentEditor
      ensures Objects() && slots == Cleaned(old(slots)) && order == Unedited(old(order), old(slots))
      ensures size == old(size) + Total(order, old(slots)) && entries.Values <= old(entries.Values)
      ensures files.disk == old(files.disk).(tmp := None)
      ensures old(files.seen) <= files.seen && Between(files.seen, |old(files.seen)|, Surviving(old(files.disk)), Surviving(old(files.disk)))
    {
      hide Objects, JournalOf, Lists, Unedited, Cleaned, Total;
      if files.disk.tmp.Some? {
        files.Put(files.disk.(tmp := None));
      }
      var keys := order;
      ghost var m, values, size0 := slots, entries.Values, size;
      CleanedFirst(keys, m);
      for i := 0 to |keys|
        invariant Objects() && entries.Values <= values && slots == CleanedSoFar(m, keys[..i])
        invariant order == Unedited(keys[..i], m) + keys[i..] && size == size0 + Total(Unedited(keys[..i], m), m)
        modifies this`size, this`order, this`entries, this`slots, values`currentEditor
      {
        ProcessEntry(keys, m, size0, i);
      }
      CleanedLast(keys, m);
    }

    method ProcessEntry(keys: seq<string>, ghost m: Slots, ghost size0: int, i: nat)
      requires Objects() && Lists(keys, m) && i < |keys| && slots == CleanedSoFar(m, keys[..i])
      requires order == Unedited(keys[..i], m) + keys[i..] && size == size0 + Total(Unedited(keys[..i], m), m)
      modifies this`size, this`order, this`entries, this`slots, entries.Values`currentEditor
      ensures Objects() && entries.Values <= old(entries.Values) && slots == CleanedSoFar(m, keys[..i + 1])
      ensures order == Unedited(keys[..i + 1], m) + keys[i + 1..] && size == size0 + Total(Unedited(keys[..i + 1], m), m)
    {
      hide JournalOf, Lists, Unedited, CleanedSoFar, Without, Total;
      CleanStep(keys, m, i);
      CleanedMore(m, keys[..i], keys[i]);
      TotalMore(Unedited(keys[..i], m), keys[i], m);
      var entry := entries[keys[i]];
      if entry.currentEditor == null {
        AddLengths(entry);
      } else {
        DiscardEntry(entry);
      }
    }

    /** The cache takes over the journal that is there; false if it is corrupt. */
    method PickUp(ghost base0: nat) returns (ok: bool, ghost records: seq<Record>)
      requires Objects() && Abs() == State(map[], [], 0) && order == [] && entries == map[] && size == 0
      requires LegalConfig(config) && files.disk.journal.Some? && files.disk.backup == None
      modifies this`isOpen, this`entries, this`order, this`slots, this`known, this`log, this`base, this`size, this`redundantOpCount, files`disk, files`seen
      ensures ReadBack(old(files.disk).journal.value, config.appVersion, config.valueCount) == if ok then Some(records) else None
      ensures !ok ==> files.disk == old(files.disk) && files.seen == old(files.seen)
      ensures fresh(entries.Values) && Unnumbered()
      ensures ok ==> isOpen && Objects() && Handles() && size == Total(order, slots) && Lists(order, slots)
      ensures ok ==> AsReplayed(records)
      ensures ok && OwnText(old(files.disk).journal.value, records, base0, config) ==>
        Valid() && RestartsFrom(records, Rest(old(files.disk).journal.value) != "", base0, Abs(), config)
      ensures ok ==> old(files.seen) <= files.seen
      ensures ok && OwnText(old(files.disk).journal.value, records, base0, config) ==>
        SameClean(files.seen, |old(files.seen)|, old(files.disk), config)
    {
      hide Objects, Handles, JournalOf, Rest, Lists, Unedited, Cleaned, Replay, ReplayOrder, Total, ReadBack, Sized, Inv, Ordered, OwnText, RestartsFrom, SameClean, Recoverable;
      ghost var d0 := files.disk;
      ok, records := ReadJournal(base0);
      if !ok {
        return;
      }
      ghost var replayed, s1, d1, seen1 := order, Abs(), files.disk, files.seen;
      ProcessJournal();
      known := entries.Values;
      NoEditors(s1.slots);
      OpenedOrdered(replayed, s1.slots);
      ghost var text := d0.journal.value;
      if OwnText(text, records, base0, config) {
        WrittenStarts(text, records, base0, s1, config);
        RestartSound(records, Rest(text) != "", base0, config);
        RestartClean(records, d0, d1, files.seen, seen1, |old(files.seen)|, replayed, s1.slots, config);
      }
    }

    lemma NoEditors(m: Slots)
      requires Objects() && slots == Cleaned(m) && known == entries.Values
      ensures Handles()
    {
    }

    /** The entries, their order, and the count of redundant records are what the records say, without
        the entries under edit. */
    ghost predicate AsReplayed(records: seq<Record>)
      reads this`slots, this`order, this`redundantOpCount
    {
      && slots == Cleaned(Replay(records, config.valueCount))
      && order == Unedited(ReplayOrder(records), Replay(records, config.valueCount))
      && redundantOpCount == |records| - |ReplayOrder(records)|
    }

    /** What opening makes of the journal files. A journal that this cache wrote, with any part of one
        more line, gives the state that the run theorem reopens with; a corrupt one an empty cache. */
    ghost predicate OpenedOn(d: Disk, base0: nat)
      reads this, files`disk, known`currentEditor
      reads entries.Values`readable, entries.Values`lengths, entries.Values`currentEditor
    {
      isOpen && Objects() &&
      match FoundLog(d, config)
      case None => Valid() && Abs() == State(map[], [], 0)
      case Some(log) =>
        && AsReplayed(log) && Lists(order, slots) && size == Total(order, slots)
        && (OwnText(Surviving(d).value, log, base0, config) ==>
          Valid() && RestartsFrom(log, Rest(Surviving(d).value) != "", base0, Abs(), config))
    }

    /** open. */
    static method Open(files: JournalFiles, appVersion: int, valueCount: int, maxSize: int, ghost base0: nat)
      returns (r: Outcome<DiskLruCache>)
      requires Long(appVersion) && Long(valueCount)
      modifies files`disk, files`seen
      ensures maxSize <= 0 || valueCount <= 0 ==> r == IllegalArgument && files.disk == old(files.disk)
      ensures maxSize > 0 && valueCount > 0 ==> r.Value? && fresh(r.value) && r.value.files == files && r.value.maxSize == maxSize
      ensures maxSize > 0 && valueCount > 0 ==> r.value.config == Config(appVersion, valueCount) && fresh(r.value.entries.Values)
      ensures maxSize > 0 && valueCount > 0 ==> r.value.Unnumbered() && r.value.nextSequenceNumber == 0
      ensures maxSize > 0 && valueCount > 0 ==> r.value.OpenedOn(old(files.disk), base0)
      ensures maxSize > 0 && valueCount > 0 ==> SafelyOpened(files.seen, |old(files.seen)|, old(files.disk), base0, r.value.config)
    {
      hide SafelyOpened, FoundLog;
      if maxSize <= 0 {
        return IllegalArgument;
      }
      if valueCount <= 0 {
        return IllegalArgument;
      }
      files.RestoreBackup();
      ghost var d, seen := files.disk, files.seen;
      FoundSame(old(files.disk), d, Config(appVersion, valueCount));
      var cache := OpenRestored(files, Config(appVersion, valueCount), maxSize, base0);
      SafelyRestored(seen, files.seen, |old(files.seen)|, old(files.disk), d, base0, cache.config);
      return Value(cache);
    }

    static method OpenRestored(files: JournalFiles, config: Config, maxSize: int, ghost base0: nat) returns (cache: DiskLruCache)
      requires LegalConfig(config) && files.disk.backup == None
      modifies files`disk, files`seen
      ensures fresh(cache) && cache.files == files && cache.maxSize == maxSize && cache.config == config
      ensures fresh(cache.entries.Values) && cache.Unnumbered() && cache.nextSequenceNumber == 0 && cache.OpenedOn(old(files.disk), base0)
      ensures old(files.seen) <= files.seen && SafelyOpened(files.seen, |old(files.seen)|, old(files.disk), base0, config)
    {
      hide ReadBack, Sound, JournalOf, OwnText, RestartsFrom, Idle, Replay, ReplayOrder, Cleaned, Total, Lists, CleanAfterOpen;
      cache := new DiskLruCache(config, files, maxSize);
      if files.disk.journal.Some? {
        var ok;
        ghost var records;
        ok, records := cache.PickUp(base0);
        if ok {
          return;
        }
        files.Put(Disk(None, None, None));
        cache := new DiskLruCache(config, files, maxSize);
        cache.StartEmpty();
        CorruptEmptied(old(files.seen), files.seen, old(files.disk), Disk(None, None, None), base0, config);
        return;
      }
      NothingFound(files.disk, config);
      cache.StartEmpty();
    }

    /** The first journal of a new cache. */
    method StartEmpty()
      requires Abs() == State(map[], [], 0) && order == [] && entries == map[] && known == {} && size == 0 && LegalConfig(config)
      modifies this`isOpen, this`log, this`base, files`disk, files`seen
      ensures Valid() && isOpen && Abs() == State(map[], [], 0)
      ensures old(files.seen) <= files.seen
      ensures CleanAfterOpen(old(files.disk), config) == map[] ==> SameClean(files.seen, |old(files.seen)|, old(files.disk), config)
    {
      hide JournalOf, CleanAfterOpen, SameClean;
      ghost var d0 := files.disk;
      EmptySound(config);
      RebuildJournal();
      if CleanAfterOpen(d0, config) == map[] {
        EmptyClean(files.seen, |old(files.seen)|, d0, config);
      }
    }
  }
}
