/** The three journal files: how a rebuild replaces the journal, and what opening finds after a
    crash. Creating, deleting and renaming files always succeeds. */
module JournalStore {
  import opened Basics
  import opened JournalText
  import opened Journal
  import opened JournalRun

  /** The contents of the files `journal`, `journal.tmp` and `journal.bkp`. */
  datatype Disk = Disk(journal: Option<string>, tmp: Option<string>, backup: Option<string>)

  /** The journal that opening reads: the backup counts only if there is no journal. */
  function Surviving(d: Disk): Option<string> {
    if d.journal.Some? then d.journal else d.backup
  }

  /** The clean map after opening the cache on these files. */
  function CleanAfterOpen(d: Disk, c: Config): map<string, seq<int>> {
    match Surviving(d)
    case None => map[]
    case Some(text) => match ReadBack(text, c.appVersion, c.valueCount)
      case None => map[]
      case Some(log) => CleanMap(Replay(log, c.valueCount))
  }

  /** From `from` on, opening would have read one of the two texts. */
  ghost predicate Between(seen: seq<Disk>, from: nat, a: Option<string>, b: Option<string>) {
    forall i :: from <= i < |seen| ==> Surviving(seen[i]) == a || Surviving(seen[i]) == b
  }

  lemma BetweenBoth(seen: seq<Disk>, seen': seq<Disk>, from: nat, a: Option<string>, b: Option<string>)
    requires seen <= seen' && Between(seen, from, a, a) && Between(seen', |seen|, a, b)
    ensures Between(seen', from, a, b)
  {
  }

  /** The journal files; `seen` records every state they go through. */
  class JournalFiles {
    var disk: Disk
    ghost var seen: seq<Disk>

    constructor (disk: Disk)
      ensures this.disk == disk && seen == [disk]
    {
      this.disk := disk;
      seen := [disk];
    }

    method Put(d: Disk)
      modifies this`disk, this`seen
      ensures disk == d && seen == old(seen) + [d]
    {
      disk := d;
      seen := seen + [d];
    }

    /** Writing to the temporary file; a crash can keep any part of it. */
    method WriteTmp(text: string)
      requires disk.tmp.Some?
      modifies this`disk, this`seen
      ensures disk == old(disk).(tmp := Some(old(disk).tmp.value + text))
      ensures old(seen) <= seen && Between(seen, |old(seen)|, Surviving(old(disk)), Surviving(old(disk)))
    {
      ghost var start, d0 := seen, disk;
      assert d0.tmp.value + text[..0] == d0.tmp.value;
      for i := 0 to |text|
        invariant disk == d0.(tmp := Some(d0.tmp.value + text[..i]))
        invariant start <= seen && Between(seen, |start|, Surviving(d0), Surviving(d0))
      {
        assert d0.tmp.value + text[..i + 1] == (d0.tmp.value + text[..i]) + [text[i]];
        Put(disk.(tmp := Some(disk.tmp.value + [text[i]])));
      }
      assert text[..|text|] == text;
    }

    /** The temporary file becomes the journal, by way of a backup of the old one. */
    method Swap()
      requires disk.tmp.Some?
      modifies this`disk, this`seen
      ensures disk == Disk(old(disk).tmp, None, None)
      ensures old(seen) <= seen && Between(seen, |old(seen)|, Surviving(old(disk)), old(disk).tmp)
    {
      if disk.journal.Some? {
        if disk.backup.Some? {
          Put(disk.(backup := None));
        }
        Put(disk.(journal := None, backup := disk.journal));
      }
      Put(disk.(journal := disk.tmp, tmp := None));
      Put(disk.(backup := None));
    }

    /** The first lines of open: a backup without a journal takes its place. */
    method RestoreBackup()
      modifies this`disk, this`seen
      ensures disk == Disk(Surviving(old(disk)), old(disk).tmp, None)
      ensures disk.journal == if old(disk).journal.Some? then old(disk).journal else old(disk).backup
      ensures old(seen) <= seen && Between(seen, |old(seen)|, Surviving(old(disk)), Surviving(old(disk)))
    {
      if disk.backup.Some? {
        if disk.journal.Some? {
          Put(disk.(backup := None));
        } else {
          Put(disk.(journal := disk.backup, backup := None));
        }
      }
    }
  }

  /** The rebuilt journal reads back to the same clean map. */
  lemma RebuiltReads(order: seq<string>, m: Slots, d: Disk, c: Config)
    requires LegalConfig(c) && Lists(order, m)
    requires forall k :: k in m ==> LegalKey(k) && LegalLengths(m[k].lengths, c) && (m[k].editing || m[k].readable)
    requires Surviving(d) == Some(JournalOf(CompactLog(order, m), c.appVersion, c.valueCount))
    ensures CleanAfterOpen(d, c) == CleanMap(m)
  {
    var log := CompactLog(order, m);
    CompactLegal(order, m, c);
    CompactAgrees(order, m, c.valueCount);
    JournalReadBack(log, "", c.appVersion, c.valueCount);
    assert JournalOf(log, c.appVersion, c.valueCount) + "" == JournalOf(log, c.appVersion, c.valueCount);
    AgreeClean(Replay(log, c.valueCount), m);
  }

  /** Compaction is crash-atomic: whatever moment of a rebuild a crash picks, opening recovers the
      clean map of before. */
  lemma RebuildAtomic(order: seq<string>, s: State, d0: Disk, d: Disk, c: Config)
    requires Inv(s, c) && Lists(order, s.slots)
    requires CleanAfterOpen(d0, c) == CleanMap(s.slots)
    requires Surviving(d) == Surviving(d0) || Surviving(d) == Some(JournalOf(CompactLog(order, s.slots), c.appVersion, c.valueCount))
    ensures CleanAfterOpen(d, c) == CleanMap(s.slots)
  {
    if Surviving(d) != Surviving(d0) {
      RebuiltReads(order, s.slots, d, c);
    }
  }

  /** Opening on an intact journal. */
  lemma JournalledClean(s: State, d: Disk, c: Config)
    requires Inv(s, c) && Surviving(d) == Some(Text(s, c))
    ensures CleanAfterOpen(d, c) == CleanMap(s.slots)
  {
    JournalReadBack(s.log, "", c.appVersion, c.valueCount);
    assert Text(s, c) + "" == Text(s, c);
    AgreeClean(Replay(s.log, c.valueCount), s.slots);
  }
}
