# Verified models of the hook libraries and the disk cache

An Android toolbox keeps its hardest logic in two places: the native hook libraries (bytehook, xhook, xdl)
and a disk LRU cache. This project models that logic in Dafny and proves what it promises. `dafny verify
dfyconfig.toml` checks everything. Code that works in place is modelled in place: classes with the source's
fields, methods with its loops, and each method is proved against a specification whose own properties are
lemmas.

| files | what they model |
|---|---|
| `RbShape`, `RbLinks`, `RbTree`, `RbWalk` | the intrusive red-black tree of `tree.h`. A ghost shape and a path to a position describe the tree; all balance and order proofs are about shapes, and the link lemmas carry them over to the fields |
| `SplayShape`, `SplayLinks`, `SplayTree` | the top-down splay tree of `tree.h`: the middle tree and the two spines of the splay loop |
| `TailQueue` | the tail queues of `queue.h`; a head and an entry are the same kind of link, as in the macros |
| `SignalSlots` | the slots of `bytesig.c`, as interleaved steps of any number of threads |
| `LineReader` | the buffered reader, over a stream that hands out chunks of any size |
| `JournalText`, `Journal`, `JournalRun`, `JournalStore` | the cache's journal: its text, its replay, every run of calls and crashes, and the three files of a rebuild |
| `LruOrder`, `LruCalls`, `Snapshots`, `DiskLru`, `DiskLruClient` | the access order and what trimming evicts, what each call keeps, which snapshots are found stale, the cache itself, and clients of it |
| `HookList`, `HookChain`, `HookCalls`, `HookManager` | hook chains, the stack of frames, nested calls through hooked slots, and the GOT slots over histories |
| `Calendar`, `Numerals`, `Format` | the local time, the numerals and the bounded formatter of `bh_util.c` |
| `HashLookup`, `HashTables` | symbol lookup by hash, and the tables a linker builds |
| `Sleb128`, `PackedRelocs`, `RelocNumbers` | the number encoding, the two decoders of packed relocations, and the format in terms of its numbers |
| `ElfManager` | the mark-and-sweep refresh of loaded objects and the lookup by name, over the red-black tree |
| `Basics` | what several of them need |

## Findings

Where the code does not do what its documentation or its users expect, a lemma gives an input, and another
one says exactly when it does.

- A journal cut inside the part that the last rebuild wrote can recover entries that were never the whole
  cache at any moment. `JournalRun.TruncationForgets` gives a run and a cut; `JournalRun.TruncationExactly`
  says for every run and every cut when the recovered map is one of the run's. A caller is safe for every cut at
  or behind the end of the rebuilt text, and inside it `JournalRun.TruncationInRebuild` says what is left.
- A GOT slot that is NULL at first keeps the trampoline of an abandoned chain, because NULL also means
  "nothing to restore" (`bh_hook_manager.c:384`). `HookManager.NullKeepsTrampoline`, and exactly when in
  `HookManager.AlwaysRight`.
- Re-enabling an old item behind a newer one of the same function makes two proxies call each other for ever.
  `HookList.ReenabledLoops`, and exactly when in `HookList.AddedCarriers` and `HookList.OrderExactly`; unique
  task ids exclude it.
- A snapshot whose entry has been published anew can still get an editor, though it is documented to get null
  (`DiskLruCache.java:699`): entries from the journal have number 0, and so has the first publication after
  opening. `DiskLruClient.StaleAfterReopen`, and exactly when in `Snapshots.StaleExactly`; snapshots taken after the
  first publication are safe, and no others (`Snapshots.StaleRight`).
- Trimming does not end if the entries under edit alone exceed the limit: `LruCalls.TrimNeverEnds`, and exactly
  when in `LruOrder.TrimTerminates`. Closing drops all edits first.
- %o is treated as a signed conversion: `Format.OctalFails`, and exactly when in `Format.OctalRight`.
- Padding with zeros ignores the sign, and happens on the right too: `Format.PaddingFailsRight` and
  `Format.PaddingFailsSigned`, and exactly when in `Format.PaddingRight`.
- An undefined symbol can hide a defined one of the same name: `HashTables.UndefinedHides`, and exactly when in
  `HashLookup.XdlSym` and `HashLookup.ExportFunc`.
- The two decoders of packed relocations can part on empty and on overlong groups:
  `PackedRelocs.ZeroGroupDiffers` and `PackedRelocs.OverlongGroupDiffers`. They never part, at any point of a
  stream and whatever follows there short of another header, exactly if no group so far is of these kinds
  (`PackedRelocs.AgreeWhateverFollows`).
- A search by base name can return another library whose name only ends with it: asked for libc.so, the manager
  returns /apex/lib64/mylibc.so if that is loaded too. `ElfManager.FindByBase`, and exactly when in
  `ElfManager.BaseMatches`.
- The reader accepts a capacity of 0, though its documentation says that it throws (`StrictLineReader.java:83`), and
  then readLine does not return. `LineReader.StrictLineReader.Create` says that 0 is the only such capacity, and
  `LineReader.SearchEnds` that the loop ends for every other one and not for 0.

## Model

| member | source | states |
|---|---|---|
| `RbTree.RbHead.RotateLeft` | nativelibs/xhook/src/main/cpp/tree.h:343-361 | Over any path and subtree, the rotation keeps links, in-order sequence and node set, in the shape of a left rotation |
| `RbTree.RbHead.RotateRight` | nativelibs/xhook/src/main/cpp/tree.h:363-381 | The mirror image |
| `RbTree.RbHead.InsertColor` | nativelibs/xhook/src/main/cpp/tree.h:408-450 | From a red node that may clash with its red parent to a red-black tree with the same in-order sequence and nodes |
| `RbTree.RbHead.Insert` | nativelibs/xhook/src/main/cpp/tree.h:598-627 | Keeps search order, links and balance; either reports the node that has the key already, the given one included, and changes nothing, or adds exactly the new node at one place in the order, and every other node stays itself |
| `RbTree.RbHead.RemoveColor` | nativelibs/xhook/src/main/cpp/tree.h:452-528 | From a tree that lacks one black node at one position to a red-black tree with the same in-order sequence and nodes |
| `RbTree.RbHead.UnlinkInner` | nativelibs/xhook/src/main/cpp/tree.h:531-581 | A node with two children gives its place to its successor, by relinking; the rest keeps its order, and what is missing is one black node or nothing |
| `RbTree.RbHead.Remove` | nativelibs/xhook/src/main/cpp/tree.h:530-595 | Keeps search order, links and balance, and takes exactly the given node out of the order and out of the node set |
| `RbShape.InsertRecolored` | nativelibs/xhook/src/main/cpp/tree.h:414-422 | With a red uncle the clash moves up by two levels and nothing else is lost |
| `RbShape.DeficitPaid` | nativelibs/xhook/src/main/cpp/tree.h:521-527 | Blackening the focus, or arriving at the root, ends the removal repair |
| `RbShape.RedSibling` | nativelibs/xhook/src/main/cpp/tree.h:460-465 | A red sibling is rotated above the parent, and the deficit stays at the focus with a black sibling |
| `RbShape.RemoveTurnedLeft` | nativelibs/xhook/src/main/cpp/tree.h:473-490 | The last rotations for a deficit on the left leave a balanced subtree of full black height and the same order |
| `RbShape.HeightBound` | nativelibs/xhook/src/main/cpp/tree.h:54-62 | 2^height <= (n+1)^2 for every red-black tree of n nodes |
| `RbWalk.Find` | nativelibs/xhook/src/main/cpp/tree.h:629-644 | Returns a node with the key, or null exactly if no node has it |
| `RbWalk.NFind` | nativelibs/xhook/src/main/cpp/tree.h:647-665 | Returns the first node in order that is not smaller than the key, or null if all are smaller |
| `RbWalk.Next` | nativelibs/xhook/src/main/cpp/tree.h:668-687 | Returns the next node in order, null for the last, through child and parent links only |
| `RbWalk.MinMax` | nativelibs/xhook/src/main/cpp/tree.h:711-724 | Returns the first node for a negative argument, else the last; null on an empty tree |
| `RbWalk.ForeachSafe` | nativelibs/xhook/src/main/cpp/tree.h:748-751 | Visits every node once, in order, though the body removes any set of the visited nodes; what remains is the others in their old order |
| `SplayLinks.RotatedRight` | nativelibs/xhook/src/main/cpp/tree.h:89-93 | Rotating the middle tree keeps the three-part scene and the node sequence |
| `SplayLinks.LinkedRight` | nativelibs/xhook/src/main/cpp/tree.h:101-105 | Linking the root off to the right keeps the scene: the root's right subtree goes along |
| `SplayLinks.AssembledTree` | nativelibs/xhook/src/main/cpp/tree.h:113-118 | After the four assignments the links hold one tree made of the three parts |
| `SplayTree.SplayHead.Splay` | nativelibs/xhook/src/main/cpp/tree.h:212-243 | Keeps the in-order node sequence of any search tree; at the end all nodes left of the root are smaller than the key and all right of it greater |
| `SplayTree.OnlyRoot` | nativelibs/xhook/src/main/cpp/tree.h:136-137 | Then only the root can have the key |
| `SplayTree.SplayHead.SplayMinMax` | nativelibs/xhook/src/main/cpp/tree.h:248-279 | Keeps the sequence and brings its first or last node to the root, with nothing on that side |
| `SplayTree.SplayHead.Find` | nativelibs/xhook/src/main/cpp/tree.h:129-138 | Returns a node with the key, or null exactly if there is none |
| `SplayTree.SplayHead.Insert` | nativelibs/xhook/src/main/cpp/tree.h:165-187 | Adds exactly the new node at its place in the order and to the node set, or reports the node that has the key, the given one included, and changes no order |
| `SplayTree.SplayHead.Remove` | nativelibs/xhook/src/main/cpp/tree.h:189-210 | Takes exactly the node with the key out of the order and returns its argument, or returns null exactly if no node has the key; no node joins the tree |
| `SplayTree.ComeAndGo` | nativelibs/xhook/src/main/cpp/tree.h:165-210 | A client: two nodes come in, one goes and comes back, and is reported when it comes in once more |
| `TailQueue.Link.constructor` | nativelibs/xhook/src/main/cpp/queue.h:428-431 | An empty queue |
| `TailQueue.Link.InsertHead` | nativelibs/xhook/src/main/cpp/queue.h:485-494 | The new element comes first; links and back-pointers stay consistent |
| `TailQueue.Link.InsertTail` | nativelibs/xhook/src/main/cpp/queue.h:512-518 | The new element comes last |
| `TailQueue.Link.InsertBefore` | nativelibs/xhook/src/main/cpp/queue.h:495-501 | The new element comes right before the given one |
| `TailQueue.Link.InsertAfter` | nativelibs/xhook/src/main/cpp/queue.h:502-511 | The new element comes right after the given one |
| `TailQueue.Link.Remove` | nativelibs/xhook/src/main/cpp/queue.h:528-536 | Exactly the given element is gone |
| `TailQueue.Link.Concat` | nativelibs/xhook/src/main/cpp/queue.h:519-527 | The second queue's elements follow the first one's, and the second queue is empty |
| `TailQueue.Link.Swap` | nativelibs/xhook/src/main/cpp/queue.h:537-552 | The two queues have exchanged their elements, empty ones included |
| `TailQueue.Link.Prev` | nativelibs/xhook/src/main/cpp/queue.h:439-440 | The element before the given one, or null for the first |
| `TailQueue.Link.Last` | nativelibs/xhook/src/main/cpp/queue.h:442-443 | The last element, or null |
| `TailQueue.Link.Foreach` | nativelibs/xhook/src/main/cpp/queue.h:445-448 | Visits the elements in order |
| `TailQueue.Link.ForeachReverse` | nativelibs/xhook/src/main/cpp/queue.h:465-468 | Visits the elements in reverse order |
| `SignalSlots.StepInv` | nativelibs/bytehook/src/main/cpp/bytesig.c:264-322 | Every step of every thread keeps: a slot has a thread's id exactly if the thread owns it, and then its buffer, and a free slot has none |
| `SignalSlots.OneSlotPerThread` | nativelibs/bytehook/src/main/cpp/bytesig.c:264-322 | At no moment of any interleaving of any number of threads do two slots hold one non-zero id |
| `SignalSlots.OnlyOwnerWrites` | nativelibs/bytehook/src/main/cpp/bytesig.c:264-322 | No step of another thread changes a slot that a thread owns |
| `SignalSlots.ProtectFinishes` | nativelibs/bytehook/src/main/cpp/bytesig.c:264-301 | When an unnested protect is done, the search finds its own buffer; a nested one leaves the buffer that was there |
| `SignalSlots.UnprotectFinishes` | nativelibs/bytehook/src/main/cpp/bytesig.c:303-322 | The step that ends an unprotect call leaves no slot with the thread's id, so the search finds nothing; the slot that had it is free and empty, and every other slot is as before |
| `SignalSlots.CallsDecide` | nativelibs/bytehook/src/main/cpp/bytesig.c:264-322 | At every moment of every interleaving, a thread that is between its calls finds exactly the buffer of its first protect call since its last unprotect, or nothing if there is none; this is said of its calls alone |
| `SignalSlots.AllFreeAgain` | nativelibs/bytehook/src/main/cpp/bytesig.c:303-322 | When no thread has an open protection, the slots are as at first |
| `SignalSlots.CallEnds` | nativelibs/bytehook/src/main/cpp/bytesig.c:264-322 | A thread that is left alone comes to the end of its call, after at most 516 steps, if and only if it does not look for a slot while all 256 belong to other threads |
| `SignalSlots.HandlerSearch` | nativelibs/bytehook/src/main/cpp/bytesig.c:183-198 | The handler's loop returns the buffer of the first slot with the thread's id |
| `SignalSlots.HandlerFindsOwn` | nativelibs/bytehook/src/main/cpp/bytesig.c:183-198 | In the slots of any moment the search finds the buffer of the call that got the slot, and nothing if there is none |
| `SignalSlots.HandlerFindsOwnMeanwhile` | nativelibs/bytehook/src/main/cpp/bytesig.c:183-198 | So it does if every slot is read at a moment of its own while all other threads go on |
| `LineReader.StrictLineReader.Create` | core/src/main/java/com/zipper/android/core/cache/disk/lru/StrictLineReader.java:86-100 | The constructor's check: it throws exactly for a negative capacity, which is what is documented for every capacity but 0 |
| `LineReader.StrictLineReader.FillBuf` | core/src/main/java/com/zipper/android/core/cache/disk/lru/StrictLineReader.java:188-195 | Refills the buffer from the stream, or marks the end; with capacity 0 it gets nothing and marks nothing |
| `LineReader.SearchEnds` | core/src/main/java/com/zipper/android/core/cache/disk/lru/StrictLineReader.java:161-177 | The loop of readLine ends for every stream if and only if the capacity is not 0 |
| `LineReader.LinesExactly` | core/src/main/java/com/zipper/android/core/cache/disk/lru/StrictLineReader.java:126-160 | A line ends with a line feed, or with a carriage return and a line feed, neither of which belongs to it; any other carriage return does, and what has no line feed is no line |
| `LineReader.StrictLineReader.ReadLine` | core/src/main/java/com/zipper/android/core/cache/disk/lru/StrictLineReader.java:126-178 | Delivers the next line of the pending bytes without its LF and one CR before it, whatever chunks the stream hands out; at the end it delivers none, and the unterminated flag says whether bytes are left over |
| `LineReader.ReadAll` | core/src/main/java/com/zipper/android/core/cache/disk/lru/StrictLineReader.java:126-182 | Repeated calls deliver exactly the terminated lines of the stream, and hasUnterminatedLine holds exactly if bytes follow the last LF, for every capacity of at least 1 |
| `JournalText.DecimalRead` | core/src/main/java/com/zipper/android/core/cache/disk/lru/DiskLruCache.java:937-943 | A long that was written is read back, and its text has no separator |
| `JournalText.LineRoundTrip` | core/src/main/java/com/zipper/android/core/cache/disk/lru/DiskLruCache.java:289-326 | Reading a written journal line gives the record back |
| `JournalText.LineExactly` | core/src/main/java/com/zipper/android/core/cache/disk/lru/DiskLruCache.java:289-326 | Exactly those lines are read that are a word, a space and a key, or CLEAN, the key and as many numbers as there are values; every other line is corrupt |
| `JournalText.SplitPair` | core/src/main/java/com/zipper/android/core/cache/disk/lru/DiskLruCache.java:315-315 | The pieces of a text are Java's: empty ones at the end do not count |
| `JournalText.KnownLongs` | core/src/main/java/com/zipper/android/core/cache/disk/lru/DiskLruCache.java:948-960 | A length may have a sign, but must have a digit, and fit a long |
| `JournalText.LegalKeyExactly` | core/src/main/java/com/zipper/android/core/cache/disk/lru/DiskLruCache.java:95-96 | A legal key is 1 to 120 of the 38 characters a to z, 0 to 9, _ and - |
| `Journal.TypicalJournal` | core/src/main/java/com/zipper/android/core/cache/disk/lru/DiskLruCache.java:102-121 | The journal of the documentation's example, character by character: a header of five lines, and one line for every record |
| `Journal.TypicalReplay` | core/src/main/java/com/zipper/android/core/cache/disk/lru/DiskLruCache.java:289-326 | What replaying that example gives: two published entries, and one that has only been read |
| `Journal.JournalReadBack` | core/src/main/java/com/zipper/android/core/cache/disk/lru/DiskLruCache.java:249-287 | The records of a journal with a broken last line are the complete ones |
| `Journal.JournalCut` | core/src/main/java/com/zipper/android/core/cache/disk/lru/DiskLruCache.java:249-287 | A journal cut at any byte behind its header reads back to a prefix of its records |
| `Journal.HeaderCut` | core/src/main/java/com/zipper/android/core/cache/disk/lru/DiskLruCache.java:252-264 | A journal cut inside its header is corrupt |
| `JournalRun.StepInv` | core/src/main/java/com/zipper/android/core/cache/disk/lru/DiskLruCache.java:463-485 | Every call and every rebuild keeps: the replayed journal agrees with the live entries |
| `JournalRun.ReplayCompact` | core/src/main/java/com/zipper/android/core/cache/disk/lru/DiskLruCache.java:373-379 | Replaying a rebuilt journal gives the entries back, those under edit as new ones under edit |
| `JournalRun.RunKeepsInv` | core/src/main/java/com/zipper/android/core/cache/disk/lru/DiskLruCache.java:203-247 | Over every run of edits, commits, aborts, reads, removals, rebuilds and crashes at any byte of the journal: every prefix of the journal from the last rebuild on was the journal of an earlier moment, and the rebuilt part stands for the entries of the last rebuild |
| `JournalRun.JournalReplaysToLive` | core/src/main/java/com/zipper/android/core/cache/disk/lru/DiskLruCache.java:249-349 | The replay theorem: at every moment of every run, parsing and replaying the journal text and dropping entries under edit gives exactly the live clean map |
| `JournalRun.TruncationRecovers` | core/src/main/java/com/zipper/android/core/cache/disk/lru/DiskLruCache.java:203-247 | Opening on a cut at any byte written since the last rebuild gives the clean map of this or an earlier moment |
| `JournalRun.TruncationInRebuild` | core/src/main/java/com/zipper/android/core/cache/disk/lru/DiskLruCache.java:355-392 | Opening on a cut inside the rebuilt part gives exactly the rebuild's entries whose records are whole, in the rebuild's order |
| `JournalRun.TruncationExactly` | core/src/main/java/com/zipper/android/core/cache/disk/lru/DiskLruCache.java:203-247 | For a cut at any byte at all, the recovered clean map is one of the run's if and only if the cut is inside the header, or behind the rebuilt part, or the entries whose records are whole make up a clean map of the run |
| `JournalRun.NothingForgotten` | core/src/main/java/com/zipper/android/core/cache/disk/lru/DiskLruCache.java:373-379 | Such a cut recovers the clean map of the rebuild if and only if every entry not under edit then is among those left; for a rebuilt part not cut before, if and only if all the others were under edit |
| `JournalRun.TruncationForgets` | core/src/main/java/com/zipper/android/core/cache/disk/lru/DiskLruCache.java:373-379 | A run and a cut for which the recovered map is no clean map of the run |
| `JournalStore.JournalFiles.Swap` | core/src/main/java/com/zipper/android/core/cache/disk/lru/DiskLruCache.java:384-388 | At every moment of the renames, opening would read the old journal or the new one |
| `JournalStore.JournalFiles.WriteTmp` | core/src/main/java/com/zipper/android/core/cache/disk/lru/DiskLruCache.java:360-382 | A partly written temporary file is never read |
| `JournalStore.JournalFiles.RestoreBackup` | core/src/main/java/com/zipper/android/core/cache/disk/lru/DiskLruCache.java:212-222 | A backup counts only without a journal, and taking its place changes nothing that opening reads |
| `JournalStore.RebuildAtomic` | core/src/main/java/com/zipper/android/core/cache/disk/lru/DiskLruCache.java:355-392 | Compaction is crash-atomic: whatever moment a crash picks, opening recovers the clean map of before |
| `LruOrder.TrimTerminates` | core/src/main/java/com/zipper/android/core/cache/disk/lru/DiskLruCache.java:654-659 | Trimming ends if and only if the entries under edit alone fit into the limit |
| `LruCalls.TrimNeverEnds` | core/src/main/java/com/zipper/android/core/cache/disk/lru/DiskLruCache.java:654-659 | A run to a cache with an entry of 100 bytes under edit, which no number of rounds brings down to 50 |
| `LruOrder.TrimEvictsShortestPrefix` | core/src/main/java/com/zipper/android/core/cache/disk/lru/DiskLruCache.java:654-659 | It has then evicted the shortest least-recently-used prefix of the unedited entries that suffices, and the size fits |
| `LruOrder.TouchExactly` | core/src/main/java/com/zipper/android/core/cache/disk/lru/DiskLruCache.java:151-152 | A touched key moves behind all others, which keep their order |
| `LruOrder.ReplayOrderRecent` | core/src/main/java/com/zipper/android/core/cache/disk/lru/DiskLruCache.java:289-326 | After reading a journal the access order has exactly the keys whose last record is not a removal, from the one used least recently to the one used last |
| `LruCalls.CompletesPlainly` | core/src/main/java/com/zipper/android/core/cache/disk/lru/DiskLruCache.java:517-570 | What ending an edit means: a published edit replaces the lengths of the values that have a dirty file, and no others; an entry that was published before stays as it was when its edit is dropped, and one that never was goes; nothing else changes, and the caller is told exactly if the first value that stops a first publication was never written |
| `LruCalls.CommitKeeps` | core/src/main/java/com/zipper/android/core/cache/disk/lru/DiskLruCache.java:537-563 | A commit keeps the order's entries and the size equal to the sum of all lengths |
| `LruCalls.TrimIsRun` | core/src/main/java/com/zipper/android/core/cache/disk/lru/DiskLruCache.java:654-659 | Trimming is a run of removal steps, in the order of eviction |
| `LruCalls.CloseIsRun` | core/src/main/java/com/zipper/android/core/cache/disk/lru/DiskLruCache.java:640-652 | Closing is a run of dropped edits and removals |
| `LruCalls.RunGoesOn` | core/src/main/java/com/zipper/android/core/cache/disk/lru/DiskLruCache.java:640-659 | So every run goes on with them, and what is proved of runs holds for trimming and closing |
| `LruCalls.CrashedFound` | core/src/main/java/com/zipper/android/core/cache/disk/lru/DiskLruCache.java:203-247 | What opening finds after a crash at any moment and any byte is a journal of the form the open theorem needs, or a corrupt one |
| `DiskLru.DiskLruCache.Edit` | core/src/main/java/com/zipper/android/core/cache/disk/lru/DiskLruCache.java:463-485 | Takes the edit step of the run model, writes its DIRTY line, and moves or adds the entry to the end of the order; a new entry has no bytes and cannot be read; null exactly if another edit is in progress or the snapshot's number is not the entry's, an exception for an illegal key or a closed cache, and no entry changed then; other entries and editors stay as they are |
| `DiskLru.DiskLruCache.Get` | core/src/main/java/com/zipper/android/core/cache/disk/lru/DiskLruCache.java:414-453 | Takes the read step, writes its READ line, and moves the entry to the end of the order; no snapshot if the entry is unknown, unpublished or a file is missing |
| `DiskLru.DiskLruCache.Remove` | core/src/main/java/com/zipper/android/core/cache/disk/lru/DiskLruCache.java:586-612 | Takes the removal step and writes its REMOVE line; exactly that entry goes; false if there is no such entry or it is under edit |
| `DiskLru.DiskLruCache.CompleteEdit` | core/src/main/java/com/zipper/android/core/cache/disk/lru/DiskLruCache.java:517-570 | A published entry has, value by value, the length of its dirty file if there is one, and else the length it had; a dropped edit leaves a published entry as it was, and takes one that never was; a first publication with a value missing is dropped, with an exception if the value was never written. The journal gets the entry's CLEAN line with all its lengths, or its REMOVE line. States the order afterwards, the count of redundant records, and that a publication and nothing else gives the next sequence number; an editor that has ended gets an exception |
| `DiskLru.DiskLruCache.CommitEdit` | core/src/main/java/com/zipper/android/core/cache/disk/lru/DiskLruCache.java:839-851 | Publishes, value by value as completeEdit, or after a failed write drops the edit and the entry with it; the same of order, count and number |
| `DiskLru.DiskLruCache.TrimToSize` | core/src/main/java/com/zipper/android/core/cache/disk/lru/DiskLruCache.java:654-659 | With entries under edit that fit, ends with a size within the limit, having evicted exactly the shortest least-recently-used prefix of the unedited entries that suffices; with none under edit and a negative limit, evicts all and throws; counts one redundant record per eviction |
| `DiskLru.DiskLruCache.RebuildJournal` | core/src/main/java/com/zipper/android/core/cache/disk/lru/DiskLruCache.java:355-392 | The journal is the rebuilt text of all entries, and at every moment before opening would have read the old or the new one |
| `DiskLru.DiskLruCache.CompactJournal` | core/src/main/java/com/zipper/android/core/cache/disk/lru/DiskLruCache.java:355-392 | Whatever moment of a rebuild between calls a crash picks, opening recovers the clean map |
| `DiskLru.DiskLruCache.Cleanup` | core/src/main/java/com/zipper/android/core/cache/disk/lru/DiskLruCache.java:167-182 | The background task trims, and rebuilds the journal exactly if by then at least 2000 records are redundant, and no fewer than there are entries |
| `DiskLru.DiskLruCache.Close` | core/src/main/java/com/zipper/android/core/cache/disk/lru/DiskLruCache.java:640-652 | Drops all edits, so that trimming always ends, trims to the limit, and closes; with a negative limit the iterator throws, and the cache stays open and empty |
| `DiskLru.DiskLruCache.ReadJournalLine` | core/src/main/java/com/zipper/android/core/cache/disk/lru/DiskLruCache.java:289-326 | Has the effect of the parsed record on the entries, or reports a corrupt line; a line that names an entry moves it to the end of the order, and REMOVE takes it out |
| `DiskLru.DiskLruCache.ReadJournal` | core/src/main/java/com/zipper/android/core/cache/disk/lru/DiskLruCache.java:249-287 | Replays the records of a readable journal on entries and order, counts as redundant the records beyond one per entry, and rebuilds the journal if its last line is broken; false exactly for a corrupt one |
| `DiskLru.DiskLruCache.ProcessJournal` | core/src/main/java/com/zipper/android/core/cache/disk/lru/DiskLruCache.java:332-349 | The size becomes the sum of the lengths of the published entries, and the entries under edit go |
| `DiskLru.DiskLruCache.Open` | core/src/main/java/com/zipper/android/core/cache/disk/lru/DiskLruCache.java:203-247 | Makes of the journal files what the run model's reopening says, or an empty cache; order and redundant count are those of the replay without the entries under edit; all sequence numbers are 0; and a crash while opening loses nothing |
| `DiskLruClient.EditTwo` | core/src/main/java/com/zipper/android/core/cache/disk/lru/DiskLruCache.java:203-659 | A client: a new cache, two edits at a time, one published, which can be done only once, and the cache closed; the next opening finds exactly the published entry, if it fits |
| `DiskLruClient.EditMany` | core/src/main/java/com/zipper/android/core/cache/disk/lru/DiskLruCache.java:537-548 | A client: a published entry is edited any number of times, some of its values each time; in the end each value has the length that was reported for it last, or the one it had |
| `DiskLruClient.EditOneOfTwo` | core/src/main/java/com/zipper/android/core/cache/disk/lru/DiskLruCache.java:537-548 | A client: values of 10 and 20 bytes, then only the first one written anew with 15; the entry has 15 and 20, the cache 35, and the journal says so |
| `DiskLru.DiskLruCache.PublishedNumbers` | core/src/main/java/com/zipper/android/core/cache/disk/lru/DiskLruCache.java:556-561 | Publishing an entry of the cache is one more publication in the history of its numbers |
| `DiskLru.DiskLruCache.GoneNumbers` | core/src/main/java/com/zipper/android/core/cache/disk/lru/DiskLruCache.java:586-612 | Entries that removal or trimming takes away take their numbers with them, and no other number changes |
| `Snapshots.GoneMore` | core/src/main/java/com/zipper/android/core/cache/disk/lru/DiskLruCache.java:603-605 | That is a history of single removals |
| `Snapshots.StaleExactly` | core/src/main/java/com/zipper/android/core/cache/disk/lru/DiskLruCache.java:155-160 | In every history from opening on, a snapshot is found stale if and only if its entry was published since, and something else before the last of these publications |
| `Snapshots.StaleRight` | core/src/main/java/com/zipper/android/core/cache/disk/lru/DiskLruCache.java:697-704 | A snapshot gets null exactly if its entry has changed, whatever happens later, if and only if something was published before it was taken |
| `DiskLruClient.StaleAfterReopen` | core/src/main/java/com/zipper/android/core/cache/disk/lru/DiskLruCache.java:697-704 | A client: an entry published by an earlier cache is published anew, and the old snapshot still gets an editor |
| `HookChain.Chain.AddFunc` | nativelibs/bytehook/src/main/cpp/bh_hook.c:55-102 | Refuses a function that is enabled already, re-enables an old item of the same function and task, else adds a new item in front |
| `HookChain.Chain.DelFunc` | nativelibs/bytehook/src/main/cpp/bh_hook.c:104-125 | Disables the function's enabled item and says whether any item is still enabled |
| `HookChain.TrampoStack.Push` | nativelibs/bytehook/src/main/cpp/bh_trampo.c:122-166 | Runs the newest enabled function with a new frame, and the original function if one of its frames is on the stack, there is no enabled function, or no room |
| `HookChain.TrampoStack.GetPrevFunc` | nativelibs/bytehook/src/main/cpp/bh_trampo.c:250-269 | The first enabled function behind the first item that carries the function, else the original function |
| `HookChain.TrampoStack.Pop` | nativelibs/bytehook/src/main/cpp/bh_trampo.c:271-277 | Takes the top frame off if it has this return address |
| `HookList.OrderExactly` | nativelibs/bytehook/src/main/cpp/bh_trampo.c:250-269 | Calling on runs through the enabled functions in order if and only if every enabled item is the first that carries its function |
| `HookList.AddedCarriers` | nativelibs/bytehook/src/main/cpp/bh_hook.c:55-102 | Re-enabling an old item keeps that property exactly if no newer item carries its function |
| `HookList.OneEnabledAlways` | nativelibs/bytehook/src/main/cpp/bh_hook.c:55-125 | No history gives a chain two enabled items for one function |
| `HookList.HistoryInOrder` | nativelibs/bytehook/src/main/cpp/bh_hook.c:55-125 | If every task is added at most once, the enabled functions are those added and not deleted since, newest first, and calling on runs through all of them |
| `HookList.ReenabledLoops` | nativelibs/bytehook/src/main/cpp/bh_trampo.c:258-264 | A history with a task added twice after which two proxies call each other for ever |
| `HookCalls.StackDiscipline` | nativelibs/bytehook/src/main/cpp/bh_trampo.c:122-166 | Over every nested tree of hooked calls whose proxies' return addresses differ from the frame's: the stack at return is the stack at entry, never with two frames of one original function, never with more than 16 |
| `HookCalls.CallRunsChain` | nativelibs/bytehook/src/main/cpp/bh_trampo.c:122-166 | Proxies that call through once run exactly the enabled functions, newest first, each once, then the original; a call without a frame runs the original only |
| `HookCalls.HistoryRunsChain` | nativelibs/bytehook/src/main/cpp/bh_trampo.c:122-277 | So they do for every chain whose history adds each task at most once |
| `HookManager.StepRight` | nativelibs/bytehook/src/main/cpp/bh_hook_manager.c:286-400 | A call keeps its slot right if and only if it does not empty the chain of a slot that was NULL at first |
| `HookManager.AlwaysRight` | nativelibs/bytehook/src/main/cpp/bh_hook_manager.c:286-400 | At every moment of every history a slot holds its chain's trampoline exactly while the chain has an enabled function, and its initial value otherwise, and the chain's original function is that value, if and only if no call emptied its chain while its initial value was NULL |
| `HookManager.NullKeepsTrampoline` | nativelibs/bytehook/src/main/cpp/bh_hook_manager.c:383-391 | A slot that was NULL keeps the trampoline of the abandoned chain |
| `HookManager.ChainsOrderly` | nativelibs/bytehook/src/main/cpp/bh_hook_manager.c:286-400 | In every history in which each task hooks a slot at most once, calling on runs through the enabled functions of every live chain in order |
| `HookManager.ChainsOneEnabled` | nativelibs/bytehook/src/main/cpp/bh_hook_manager.c:286-400 | In every history no live chain has two enabled items for one function |
| `HookManager.Manager.HookSingleGot` | nativelibs/bytehook/src/main/cpp/bh_hook_manager.c:286-348 | Takes the hook step of the model on the chains and the memory, or fails without effect on other slots |
| `HookManager.Manager.AddFunc` | nativelibs/bytehook/src/main/cpp/bh_hook_manager.c:104-132 | Adds the function to the chain of the slot, creating chain and trampoline if there is none, and says what the original function is |
| `HookManager.Manager.UnhookSingleGot` | nativelibs/bytehook/src/main/cpp/bh_hook_manager.c:350-400 | Takes the unhook step of the model; of the chains that one slot has abandoned, the tree keeps the first |
| `HookManager.HookAndUnhook` | nativelibs/bytehook/src/main/cpp/bh_hook_manager.c:286-400 | A client: two functions are hooked into one slot and unhooked in the same order, and the memory is as before |
| `Calendar.GuessCloser` | nativelibs/bytehook/src/main/cpp/bh_util.c:195-203 | A wrong guess of the year, in either direction, misses by fewer days than the one before: the loop's measure |
| `Calendar.FindYear` | nativelibs/bytehook/src/main/cpp/bh_util.c:195-203 | The loop ends with the year whose days contain the day, and no value leaves the range of a long |
| `Calendar.LocalTime` | nativelibs/bytehook/src/main/cpp/bh_util.c:167-217 | For every time and offset, negative ones included, the proleptic Gregorian date and time of their sum; None exactly where the year does not fit an int |
| `Calendar.DateIsPosix` | nativelibs/bytehook/src/main/cpp/bh_util.c:167-217 | The fields are the inverse of the formula of section 4.16 of the POSIX.1-2017 Base Definitions |
| `Calendar.DateIsCivil` | nativelibs/bytehook/src/main/cpp/bh_util.c:157-217 | The fields are a moment's exactly if year, month, day of the month, day of the year and day of the week are those of the closed form with years from March and 153 days to five months, which uses no table of months |
| `Calendar.KnownDates` | nativelibs/bytehook/src/main/cpp/bh_util.c:157-217 | Five known dates: the Epoch and the second before it, the turn from April to May 1970, February 29 of 2000, and March 1 of 2100 |
| `Calendar.NextDay` | nativelibs/bytehook/src/main/cpp/bh_util.c:185-193 | A day later it is the same time of the next day of the week |
| `Calendar.DateUnique` | nativelibs/bytehook/src/main/cpp/bh_util.c:167-217 | A moment has only one date |
| `Numerals.NumeralDenotes` | nativelibs/bytehook/src/main/cpp/bh_util.c:235-257 | The numeral that is specified denotes its number in its base, without leading zeros |
| `Numerals.NumeralWritten` | nativelibs/bytehook/src/main/cpp/bh_util.c:243-248 | Its digits are 0 to 9 and a to f, or A to F if capitals are asked for |
| `Numerals.FormatUnsigned` | nativelibs/bytehook/src/main/cpp/bh_util.c:235-269 | Writes the numeral of the value, or as many of its last digits as fit, and NUL, and touches nothing in front |
| `Numerals.FormatInteger` | nativelibs/bytehook/src/main/cpp/bh_util.c:271-288 | Writes the signed or unsigned numeral of a 64-bit value in full, given room for 24 characters |
| `Numerals.ParseInvertsFormat` | nativelibs/bytehook/src/main/cpp/bh_util.c:219-269 | Parsing inverts formatting in base 10 for every value below 2^32, whatever stands around the numeral, and stops behind it |
| `Numerals.ParseNumeral` | nativelibs/bytehook/src/main/cpp/bh_util.c:219-233 | In general it reads the value modulo 2^32 |
| `Format.Stream.Send` | nativelibs/bytehook/src/main/cpp/bh_util.c:309-328 | Counts everything, keeps the first characters that fit, and ends them with NUL |
| `Format.Stream.SendRepeat` | nativelibs/bytehook/src/main/cpp/bh_util.c:330-343 | Sends so many copies of the character, in groups of eight |
| `Format.Stream.VFormat` | nativelibs/bytehook/src/main/cpp/bh_util.c:345-512 | Sends exactly the rendering of the format |
| `Format.Vsnprintf` | nativelibs/bytehook/src/main/cpp/bh_util.c:514-519 | The buffer has the first min(total, size-1) characters of the unbounded rendering and NUL, and the result is the rendering's full length, for every format, arguments and size |
| `Format.PlainText` | nativelibs/bytehook/src/main/cpp/bh_util.c:360-373 | Text without directives is rendered as it is |
| `Format.DirectiveSpelled` | nativelibs/bytehook/src/main/cpp/bh_util.c:378-440 | A directive is read as it is spelled, whatever stands around it: any flags in any order, every width and precision, and each of the length modifiers h, hh, l, ll, z and t with its size |
| `Format.RenderSpelled` | nativelibs/bytehook/src/main/cpp/bh_util.c:345-512 | A format with such a directive is rendered as the text in front of it, the padded text of its argument, and what follows with the next argument; after a sign flag or a precision nothing follows |
| `Format.RenderPercent` | nativelibs/bytehook/src/main/cpp/bh_util.c:378-388 | A percent sign with nothing but flags behind it is printed |
| `Format.RenderGivesUp` | nativelibs/bytehook/src/main/cpp/bh_util.c:490-493 | From a conversion that is not known on, nothing is printed |
| `Format.AsIntWraps` | nativelibs/bytehook/src/main/cpp/bh_util.c:399-410 | A width or precision beyond the range of an int wraps around |
| `Format.KnownConversions` | nativelibs/bytehook/src/main/cpp/bh_util.c:441-493 | The known conversions are s, c, p, d, i, o, u, x, X and % |
| `Format.StringRight` | nativelibs/bytehook/src/main/cpp/bh_util.c:442-448 | %s prints its argument up to the first NUL, and NULL as (null) |
| `Format.CharacterRight` | nativelibs/bytehook/src/main/cpp/bh_util.c:449-453 | %c prints the character that was passed as an int, and %% a percent sign |
| `Format.ValuesArePowers` | nativelibs/bytehook/src/main/cpp/bh_util.c:464-484 | An argument of n bytes has 2^(8n) values |
| `Format.SignedRight` | nativelibs/bytehook/src/main/cpp/bh_util.c:459-485 | %d and %i with any length modifier print the number that was passed |
| `Format.UnsignedRight` | nativelibs/bytehook/src/main/cpp/bh_util.c:459-485 | %u, %x and %X print a numeral that denotes the argument, cut to its size |
| `Format.PointerRight` | nativelibs/bytehook/src/main/cpp/bh_util.c:454-458 | %p prints 0x and a numeral that denotes the address |
| `Format.OctalRight` | nativelibs/bytehook/src/main/cpp/bh_util.c:273 | %o prints the octal numeral of its unsigned argument if and only if the top bit is clear |
| `Format.OctalFails` | nativelibs/bytehook/src/main/cpp/bh_util.c:273 | At 0xFFFFFFFF it prints -1 |
| `Format.PaddingRight` | nativelibs/bytehook/src/main/cpp/bh_util.c:502-510 | The padding is that of section 7.21.6.1 of ISO/IEC 9899:2011 if and only if nothing is padded, or there is no 0 flag, or neither a - flag nor a minus sign beside it |
| `Format.PaddingFailsRight` | nativelibs/bytehook/src/main/cpp/bh_util.c:502-510 | %-05d of 42 is rendered as 42000 |
| `Format.PaddingFailsSigned` | nativelibs/bytehook/src/main/cpp/bh_util.c:502-510 | %05d of -42 is rendered as 00-42 |
| `Format.UnsignedSurvives` | nativelibs/bytehook/src/main/cpp/bh_util.c:219-269 | What %u printed, bh_util_parse_decimal reads back, for every value below 2^32 |
| `HashLookup.ComputeGnuHash` | nativelibs/bytehook/src/main/cpp/bh_elf.c:383-390 | The loop computes the hash with 32-bit wrap-around |
| `HashLookup.ComputeSysvHash` | nativelibs/xhook/src/main/cpp/xh_elf.c:302-314 | The loop computes the hash with its folded top bits |
| `HashLookup.GnuHashIsNumeral` | nativelibs/bytehook/src/main/cpp/bh_elf.c:383-390 | The GNU hash is the name as a numeral in base 33 behind the digit 5381, modulo 2^32 |
| `HashLookup.SysvHashNext` | nativelibs/bytehook/src/main/cpp/bh_elf.c:371-381 | What one more character does to the System V hash: shifted in, cut to 28 bits, and the four bits cut off exclusive-ored to bits 4 to 7 |
| `HashLookup.KnownHashes` | nativelibs/bytehook/src/main/cpp/bh_elf.c:371-390 | The known hashes of printf and syscall |
| `HashLookup.BloomKeepsPresent` | nativelibs/bytehook/src/main/cpp/bh_elf.c:411-418 | The bloom test never rejects a name that is in the table |
| `HashLookup.GnuLookup` | nativelibs/bytehook/src/main/cpp/bh_elf.c:408-443 | On every well-formed table, returns what linear search of the hashed symbols returns, with or without the type filter |
| `HashLookup.GnuLookupAll` | nativelibs/xhook/src/main/cpp/xh_elf.c:377-438 | Finds a symbol with the name exactly if there is one, hashed or not |
| `HashLookup.SysvLookup` | nativelibs/bytehook/src/main/cpp/bh_elf.c:392-406 | On every well-formed table, ends, and returns the first symbol of the chain with the name and an allowed type; one exactly if linear search finds one |
| `HashLookup.XdlSym` | nativelibs/xdl/src/main/cpp/xdl.c:625-652 | Returns a listed, defined symbol with the name; none exactly if no listed symbol has it, or the first one listed for it is undefined |
| `HashLookup.ExportFunc` | nativelibs/bytehook/src/main/cpp/bh_elf.c:496-512 | The same for functions, with the first of each table: none exactly if none is listed, or both are undefined; a function has type 0, 2 or 10 |
| `HashTables.BuiltWellFormed` | nativelibs/bytehook/src/main/cpp/bh_elf.c:408-443 | Every symbol list sorted by bucket has a well-formed .gnu.hash table, with its bloom words, chain words and bucket starts |
| `HashTables.BuiltWellFormedSysv` | nativelibs/bytehook/src/main/cpp/bh_elf.c:392-406 | Every symbol list has a well-formed .hash table |
| `HashTables.KnownTables` | nativelibs/bytehook/src/main/cpp/bh_elf.c:392-443 | The two tables of a library with one symbol, word by word, are well-formed |
| `HashTables.UndefinedHides` | nativelibs/xdl/src/main/cpp/xdl.c:648-648 | A table in which an undefined symbol hides a defined one of the same name from both lookups |
| `Sleb128.RoundTrip` | nativelibs/bytehook/src/main/cpp/bh_sleb128.c:34-54 | Decoding inverts encoding for every 64-bit value and consumes exactly its bytes |
| `Sleb128.NextDenotes` | nativelibs/bytehook/src/main/cpp/bh_sleb128.c:34-54 | Whatever the bytes, the decoder takes them up to the first one below 128, and the result is the number that they denote in base 128 with a signed top digit, modulo 2^64; none exactly if there is no such byte |
| `Sleb128.KnownEncodings` | nativelibs/bytehook/src/main/cpp/bh_sleb128.c:34-54 | The examples of section 7.6 of DWARF 5 |
| `Sleb128.Decoder.DecodeNext` | nativelibs/bytehook/src/main/cpp/bh_sleb128.c:34-54 | The decoder's loop computes that number and advances behind it; none at the end of the data |
| `PackedRelocs.IterateAps2` | nativelibs/bytehook/src/main/cpp/bh_elf.c:84-143 | Calls the callback with what the stream says up to the first relocation at which it says stop, and ends on all byte strings |
| `PackedRelocs.UntilExactly` | nativelibs/bytehook/src/main/cpp/bh_elf.c:138-138 | That is the relocations up to the first one at which it says stop, that one included, or all |
| `RelocNumbers.HeaderNumbers` | nativelibs/xhook/src/main/cpp/xh_elf.c:173-206 | Every field of a group header by its place among the numbers of the stream: size, flags, the distance if flags/2 is odd, the info if flags is odd, the addend if flags/8 and flags/4 are odd |
| `RelocNumbers.ElementNumbers` | nativelibs/bytehook/src/main/cpp/bh_elf.c:117-138 | Every field of a relocation by its place: the distance if flags/2 is even, the info if flags is even, the addend if flags/8 is odd and flags/4 even |
| `RelocNumbers.RelocsByNumbers` | nativelibs/bytehook/src/main/cpp/bh_elf.c:77-143 | For all bytes: what a stream delivers is what a reference says that picks every field of every relocation from the numbers by its place |
| `RelocNumbers.IterByNumbers` | nativelibs/xhook/src/main/cpp/xh_elf.c:155-256 | xhook's iterator delivers the same, if no group is empty or overlong |
| `RelocNumbers.KnownStreams` | nativelibs/bytehook/src/main/cpp/bh_elf.c:77-143 | Streams with flags 0 to 3 and what they deliver |
| `RelocNumbers.KnownAddends` | nativelibs/bytehook/src/main/cpp/bh_elf.c:77-143 | Streams with flags 8, 9 and 12 and what they deliver |
| `RelocNumbers.GroupLayout` | nativelibs/bytehook/src/main/cpp/bh_elf.c:95-138 | The layout of a packed group, number by number |
| `PackedRelocs.IteratePacked` | nativelibs/xhook/src/main/cpp/xh_elf.c:160-256 | The iterator delivers the sequence specified for it |
| `PackedRelocs.PackedIterator.NextReloc` | nativelibs/xhook/src/main/cpp/xh_elf.c:208-256 | One step of the iterator specification |
| `PackedRelocs.DecodersAgree` | nativelibs/xhook/src/main/cpp/xh_elf.c:111-256 | On every stream whose groups are not empty and not longer than what is left, both decoders deliver the same relocations |
| `PackedRelocs.AgreeWhateverFollows` | nativelibs/xhook/src/main/cpp/xh_elf.c:111-256 | For all bytes: they deliver the same at every point of the stream, whatever follows there short of another header, if and only if no group so far is empty or longer than what is left |
| `PackedRelocs.AgreeExactly` | nativelibs/xhook/src/main/cpp/xh_elf.c:111-256 | On given bytes, both deliver the same if and only if no overlong group holds more relocations than are left, and what follows the header of an empty group happens to read the same as groups and as elements |
| `PackedRelocs.UnpackPacked` | nativelibs/bytehook/src/main/cpp/bh_elf.c:84-143 | A packed stream delivers exactly what was packed |
| `PackedRelocs.TruncationAgrees` | nativelibs/bytehook/src/main/cpp/bh_elf.c:84-143 | So for every truncation of a packed stream both deliver the same prefix of what was packed, and all of it if nothing is cut |
| `PackedRelocs.ZeroGroupDiffers` | nativelibs/xhook/src/main/cpp/xh_elf.c:212-217 | A stream with an empty group on which they differ |
| `PackedRelocs.OverlongGroupDiffers` | nativelibs/xhook/src/main/cpp/xh_elf.c:212-217 | A stream with an overlong group on which they differ |
| `ElfManager.StrCmpOrders` | nativelibs/bytehook/src/main/cpp/bh_elf_manager.c:54-56 | strcmp is fit to order a search tree |
| `ElfManager.StrCmpLess` | nativelibs/bytehook/src/main/cpp/bh_elf_manager.c:54-56 | Its order is that of a dictionary |
| `ElfManager.MatchExactly` | nativelibs/bytehook/src/main/cpp/bh_elf.c:290-297 | If exactly one of two names begins with a slash, they match exactly if it is some front part and then the other; else exactly if they are the same |
| `ElfManager.BaseMatches` | nativelibs/bytehook/src/main/cpp/bh_elf.c:290-297 | A path that matches a base name has that base name if and only if the match begins behind a slash |
| `ElfManager.WantedExactly` | nativelibs/bytehook/src/main/cpp/bh_elf_manager.c:146-150 | A name is wanted exactly if it ends with .so or app_process64, not with libbytehook.so, and matches no block list entry |
| `ElfManager.ElfManager.AddIgnore` | nativelibs/bytehook/src/main/cpp/bh_elf_manager.c:92-116 | A block list entry is kept once |
| `ElfManager.ElfManager.CheckIgnore` | nativelibs/bytehook/src/main/cpp/bh_elf_manager.c:118-137 | Holds exactly if an entry matches |
| `ElfManager.ElfManager.IterateCb` | nativelibs/bytehook/src/main/cpp/bh_elf_manager.c:139-174 | After each report: exactly the reported objects are marked, and the new ones are listed in order of discovery |
| `ElfManager.ElfManager.Refresh` | nativelibs/bytehook/src/main/cpp/bh_elf_manager.c:176-222 | Afterwards the tree holds the old objects that are still reported, as themselves, and the new ones; all marks are clear and the counter is the tree's size; the callback ran once per new object, in order of discovery; the others are abandoned in tree order |
| `ElfManager.RefreshedNames` | nativelibs/bytehook/src/main/cpp/bh_elf_manager.c:176-222 | The names in the tree are then exactly the wanted reported ones that were known or can be loaded |
| `ElfManager.NewNamesAre` | nativelibs/bytehook/src/main/cpp/bh_elf_manager.c:139-174 | A name is new, once, exactly if it was not known, is wanted, and some report of it can be loaded |
| `ElfManager.ElfManager.FindElf` | nativelibs/bytehook/src/main/cpp/bh_elf_manager.c:253-271 | Null exactly if no object has the name: a name that is no path is had by an object whose own name is the same, or a path that ends with it, and a path by an object of that path, or one whose name it ends with. Else the object that has it whose name is first in dictionary order, on the fast path as on the scan; no mark is touched |
| `ElfManager.RefreshTwice` | nativelibs/bytehook/src/main/cpp/bh_elf_manager.c:176-271 | A client: after two refreshes the names known are the wanted ones reported last, if one of the two reports could be loaded |
| `ElfManager.FindByBase` | nativelibs/bytehook/src/main/cpp/bh_elf_manager.c:253-271 | A client: a library known by its path is found by its base name; but another one whose name only ends with that base name is returned if it comes first |
| `ElfManager.OneKind` | nativelibs/bytehook/src/main/cpp/bh_elf.c:290-297 | Among names of one kind, matching is equality, so the fast path agrees with the scan |

## Left out

- Numerals.FormatUnsigned: does not model a buffer of one character, where the index of the reversal loop wraps around (`bh_util.c:264`); every caller passes 30 or more.
- LineReader.StrictLineReader.ReadLine: requires a capacity of at least 1; with 0 it would not return (SearchEnds).
- LruCalls.CrashedFound: journal writes are modelled as reaching the file at once, so a crash leaves a prefix of the text; the Java writer's buffer is not modelled.
- PackedRelocs.DecodersAgree: compares offset and info only; the addends differ, and no hook code reads them. The 64-bit RELA form is modelled.
- Sleb128.NextDenotes: a shift by 64 or more, which C leaves undefined, drops the bits here.
- HashLookup.GnuLookup: tables are given by their well-formedness; malformed ones, on which the C code may run out of bounds, are not modelled.
- HookCalls.StackDiscipline: proxies whose return address equals the frame's are left out, because bh_trampo_pop_stack cannot tell them apart.
- HookManager.Manager.HookSingleGot: trampolines are numbered and never reused; page protection and allocation always succeed, and the GOT check is a parameter.
- SplayTree.SplayHead.SplayMinMax: requires a non-zero argument, as the macros SPLAY_MIN and SPLAY_MAX pass it; with zero the loop would not end.
- SignalSlots.OneSlotPerThread: atomics are sequentially consistent steps; the order of relaxed accesses, signal delivery and masks are not modelled.
- Calendar.LocalTime: a time and offset whose sum leaves the range of a long are covered by the split of days and seconds, as in the code; only tm_gmtoff and the zone name are left out.
- Format.Vsnprintf: arguments are a total function from positions, so missing or mismatching ones are arbitrary values; lengths are unbounded where the code counts in size_t and int.
- ElfManager.ElfManager.Refresh: allocations succeed; locking is left out, and the linker's list is a parameter.
- DiskLru.DiskLruCache.Cleanup: the calls that submit it do not run it; a caller runs it when it likes.
- RB_PREV, RB_FOREACH_REVERSE and SPLAY_NEXT: mirror images or short walks over what is proved.
- The import lookup of bytehook (`bh_elf.c:457-494`), its linear fallbacks over relocations, and parsing of ELF headers.
- Snapshot.getLength: returns the entry's live array, so nothing is promised about a snapshot's lengths.
- The contents of the cache files, and the streams of Editor and Snapshot; a file is its length, and whether it exists is a parameter.
- Manual hook mode, CFI hooking, the recorder, JNI, mmap, mprotect, dlopen, assembly trampolines and the LZMA and cipher libraries.
