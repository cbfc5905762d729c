# Verification models

Dafny models of the basketball application's event detector and of the three C and C++ libraries whose source
ships with it: the LevelDB storage engine, the nanopb encoder and decoder, and parts of libuv. Code that changes
state step by step is modelled by classes and methods with the same loops, branches and constants; each is proved
against a specification stated apart from it, and the laws the code exists for are lemmas over those specifications.
`dafny verify dfyconfig.toml` checks everything.

**LevelDB engine** (`InternalKeys` to `Database`). The specification is one plain set of versions, the history of all
writes; a read at a snapshot takes the newest version at or below it. `Database.Db` is the state machine: memtable,
immutable memtable, seven levels of files, snapshots, sequence numbers, and the manifest. Every step keeps the level
invariant, and `Database.Db.Get` is proved equal to a read of the plain history for every key that is not lost.

Keys can be lost; that result is negative. `SetupOtherInputs` adds boundary files to the inputs of the level, but not
to the inputs of the next level (version_set.cc:1384-1388). The last input of the next level can therefore end with a
deletion whose older versions start the next file, which is not an input. The drop loop then removes the deletion at
its base level, and the older version is read again. `ResurrectionExample` gives a run that reaches such a version and
the compaction. `CompactionReads.KeyPreservedExactlyWhen` proves, key by key, that this situation, which can be
recognised from the files and the smallest snapshot before the compaction, is the only way a read changes.
`Database.Db` collects the keys in a ghost set `lost`, which every compaction extends by exactly the keys it brings
back. A caller can rule the loss out: `Database.Db.Execute` loses no key when every compaction of the run starts while
no live snapshot is older than the last write (`Database.Quiet`, a condition on the script of commands alone).

`Manifests` ties the edits in memory to the bytes of the manifest. The edits that the database logs never add a number
to a level that held it, so recovery, which replays the snapshot record and the edits of any byte prefix through one
builder, gives the version after the last whole edit, in order with the counters stored in that edit.

**LevelDB iterators, blocks, log and codecs** (`DbIterator`, `Blocks`, `LogFormat`, `LogFiles`, `Coding`,
`VersionEdits`, `WriteBatches`, `GroupCommit`, `SkipLists`, `MemTables`). The two-direction iterator is a cursor on
the list of visible pairs over any run of moves. Any byte prefix of a log reads back as a prefix of its records. The
skip list is valid after each pointer store, and a reader that runs between the stores of any number of insertions
gets the answer for the list at some moment in between. A reader at a published sequence number sees whole write groups.

**nanopb** (`PbWire` to `PbStreams`, `PbEvolution`, `PbMerging`, `PbBounds`). Messages are trees of values under a
descriptor tree. The sizing pass and the writing pass agree byte for byte, so the size of a submessage never changes
between them. Decoding restores the message exactly when every string is shorter than its field: the encoder accepts
an array without a terminator (pb_enc_string), which the decoder (pb_dec_string) rejects. A reader whose descriptor
lacks some of the fields gets the same message without them, the parts of a submessage that comes in pieces are
merged, a message without a required field is rejected, and whatever the bytes, what is decoded stays within its
types and arrays.

**libuv** (`Punycode`, `Utf8`, `Idna`, `ThreadPool`, `TimerHeap`, `Timers`, `InetText`, `Inet`). The Punycode encoder
is proved against the decoder of section 6.2 of RFC 3492. The thread pool is a state machine whose steps are the
critical sections. The heap is modelled with its parent and child pointers. `inet_pton6` accepts exactly the
spellings of an address.

**Event detector** (`SlidingWindow`). The events of a run in terms of the raw frames, and the conservation of player
statistics and of possession.

Where the code differs from what its comments suggest, the model follows the code:

- A log record type of 5 or 6 in a file is taken for the internal end-of-file and bad-record marks (log_reader.cc).
- `VersionEdit::Clear` keeps the compaction pointers, so decoding into a used object keeps them too.
- `DBImpl::Write` advances the last sequence number even when logging or syncing failed, and a writer with a null
  batch that is drawn into a group is answered without having forced a compaction.
- The test of three continuation bytes by exclusive or accepts some malformed UTF-8, and a truncated last sequence of
  a label is dropped without an error (idna.c). `Utf8.DecodedIsUtf8Iff` says for all bytes when acceptance is right.
- With the loop time at its maximum, `uv__run_timers` does not end when a due timer repeats.
- `inet_ntop6` tests for an embedded IPv4 address after a run of seven zero words, a case it never reaches, and
  reports success for a destination of size 0.
- The event detector never books points: its shot events are always undecided.

## Model

| member | source | states |
|---|---|---|
| InternalKeys.ComparePackedIsBefore | frontend/Pods/leveldb-library/db/dbformat.cc:15-63 | the comparison of packed sequence and type is the order "user key ascending, then newest first", a strict total order on internal keys |
| MultiVersion.LayeredNewest | frontend/Pods/leveldb-library/db/db_impl.cc:1110-1155 | when every version in one layer is newer than every version of the same key in the next, stopping at the first layer that has a visible version gives the newest version over both |
| Tables.ProbeIsNewest | frontend/Pods/leveldb-library/db/memtable.cc:101-135 | the first entry at or after (user key, snapshot) in a sorted run, if it has that user key, is the newest version at or below the snapshot |
| Tables.FindFile | frontend/Pods/leveldb-library/db/version_set.cc:87-105 | binary search returns the first file whose largest key is not before the target: all files before it end before the target, no file from it on does |
| Lookup.GetFromLevel0 | frontend/Pods/leveldb-library/db/version_set.cc:281-307 | searching the covering level-0 files by descending number and stopping at the first hit finds the newest version in the whole level |
| Lookup.GetFromSortedLevel | frontend/Pods/leveldb-library/db/version_set.cc:309-322 | one binary-searched file answers for a whole sorted level, also when a user key spans two adjacent files |
| Lookup.GetFromVersion | frontend/Pods/leveldb-library/db/version_set.cc:324-400 | the early-stopping search over all levels returns exactly the newest version at or below the snapshot over the union of all entries of the version |
| Inputs.GetOverlappingInputs | frontend/Pods/leveldb-library/db/version_set.cc:498-538 | terminates; below level 0 it selects exactly the files that overlap the range; on level 0 a file is selected if and only if a chain of overlapping files links it to the range |
| Inputs.FindLargestKey | frontend/Pods/leveldb-library/db/version_set.cc:1303-1317 | nothing exactly for an empty list, else a key of one of the files that no other file exceeds |
| Inputs.FindSmallestBoundaryFile | frontend/Pods/leveldb-library/db/version_set.cc:1321-1340 | a file that starts after the given key with the same user key, one that starts first among all such; nothing exactly when there is none |
| Inputs.AddBoundaryInputs | frontend/Pods/leveldb-library/db/version_set.cc:1355-1377 | terminates; appends a chain of boundary files, each continuing the last, and leaves no file in the level that continues the chosen maximum |
| Inputs.ChainAscends | frontend/Pods/leveldb-library/db/version_set.cc:1355-1377 | the appended boundary files are pairwise disjoint and ascending, so none is added twice |
| Inputs.GetRange | frontend/Pods/leveldb-library/db/version_set.cc:1182-1204 | the smallest and largest internal key over all the given files, both attained |
| Inputs.SizesAddUp | frontend/Pods/leveldb-library/db/version_set.cc:59-65 | the size of one file is its own, none is zero, and the sizes of two lists add up |
| Compactions.SomeFileOverlapsRange | frontend/Pods/leveldb-library/db/version_set.cc:107-150 | for sorted files one binary search, for others a scan: true if and only if some file meets the range, with either end open |
| Compactions.PickLevelForMemTableOutput | frontend/Pods/leveldb-library/db/version_set.cc:470-496 | the exact level: no file of any level down to it overlaps the table, at each step down the files two levels below where it stands add up to at most the limit, and it stops before level 2 only because level 0 or the next level overlaps or that limit is exceeded |
| Compactions.NoBoundaryInLevel0 | frontend/Pods/leveldb-library/db/version_set.cc:1355-1377 | on a level-0 set closed under overlap there is no boundary file to add |
| Compactions.ClosureIsLeast | frontend/Pods/leveldb-library/db/version_set.cc:498-538 | on level 0 the files linked to the range by overlap are the smallest set closed under overlap that holds the files of the range |
| Compactions.BoundariesAreLeast | frontend/Pods/leveldb-library/db/version_set.cc:1355-1377 | below level 0 the inputs with their boundary files are the smallest set that holds the inputs and leaves no boundary file behind |
| Compactions.SetupOtherInputs | frontend/Pods/leveldb-library/db/version_set.cc:1380-1439 | from the wanted files to the inputs: the smallest closed set that holds them (no file left behind shares a user key at its end; level 0 closed under overlap), or the widened one exactly when that has more files, stays under 25 file sizes and leaves the files of the next level the same; the inputs of the next level are exactly the files that overlap their hull, and the grandparents exactly the files two levels down that overlap the hull of both |
| Compactions.TryExpand | frontend/Pods/leveldb-library/db/version_set.cc:1394-1424 | the expanded inputs are adopted if and only if they are more files, stay under the size limit and lead to the same files of the next level; then they are closed and hold every old input, else nothing changes |
| Compactions.EqualCountIsEqualSet | frontend/Pods/leveldb-library/db/version_set.cc:1403-1422 | for a widened range, the size-only test is equivalent to equality of the selected files of the next level |
| Compactions.PickCompaction | frontend/Pods/leveldb-library/db/version_set.cc:1247-1301 | the wanted file is the one named by seek statistics, or else the first file that ends after the compaction pointer, and file 0 when there is none; the inputs are those SetupOtherInputs leads to from it, and on level 0 from all files linked to it by overlap |
| Compactions.CompactRange | frontend/Pods/leveldb-library/db/version_set.cc:1441-1472 | nothing exactly when no file overlaps the range; otherwise the inputs that SetupOtherInputs leads to from the overlapping files, cut below level 0 at the size limit |
| Compactions.CutStopsAtLimit | frontend/Pods/leveldb-library/db/version_set.cc:1449-1465 | the cut of a manual compaction is a non-empty first run of the files whose sizes reach the limit with its last file and not before |
| DropLoop.BaseLevelCursor.IsBaseLevelForKey | frontend/Pods/leveldb-library/db/version_set.cc:1510-1529 | for non-decreasing keys the pointers that only move forward answer as a full scan of all deeper levels does |
| DropLoop.DropEntry | frontend/Pods/leveldb-library/db/db_impl.cc:939-973 | drops an entry exactly when an entry of its key before it has a sequence at or below the smallest snapshot, or it is a deletion at or below it with no deeper version |
| DropLoop.GoneExactlyWhen | frontend/Pods/leveldb-library/db/db_impl.cc:939-973 | in terms of the set of input entries alone: an entry is gone if and only if a newer version of its key is at or below the smallest snapshot, or it is a deletion at or below it and no file two or more levels down spans its key |
| DropLoop.KeptNewest | frontend/Pods/leveldb-library/db/db_impl.cc:939-973 | at every snapshot at or above the smallest one, the kept entries have the same newest version as the input, except that a visible old deletion at its base level may be gone |
| DropLoop.DropsPreserveReads | frontend/Pods/leveldb-library/db/db_impl.cc:887-1058 | over the kept entries together with all levels below the output level, every read at or above the smallest snapshot answers as over all inputs and those levels |
| DropLoop.DoCompactionWork | frontend/Pods/leveldb-library/db/db_impl.cc:887-1058 | wherever output files are cut, the outputs joined are exactly the entries the drop rules keep, in order, and no output is empty |
| CompactionReads.CompactionPreservesReadsExactlyWhen | frontend/Pods/leveldb-library/db/db_impl.cc:869-1058 | a whole compaction keeps every read at or above the smallest snapshot if and only if it brings no key back: no deletion that reads see lies in the next level's inputs, at its base level, while the next level keeps a file, outside the inputs, that begins with a value of that user key |
| CompactionReads.KeyPreservedExactlyWhen | frontend/Pods/leveldb-library/db/db_impl.cc:869-1058 | the same for each single user key: its reads at or above the smallest snapshot are kept if and only if the compaction does not bring that key back |
| CompactionReads.BroughtBackIffMember | frontend/Pods/leveldb-library/db/db_impl.cc:939-973 | the keys brought back are a finite set of user keys found in the next level's inputs |
| CompactionReads.ResurrectionIsVisible | frontend/Pods/leveldb-library/db/version_set.cc:1386-1391 | in that situation the key reads as absent before the compaction and as present after it |
| CompactionReads.ChangeMeansResurrection | frontend/Pods/leveldb-library/db/db_impl.cc:939-973 | any change of a read of a key at or above the smallest snapshot comes from that situation for that key and from nothing else |
| ResurrectionExample.DeletedKeyComesBack | frontend/Pods/leveldb-library/db/version_set.cc:1380-1439 | a run of writes, flushes and a compaction under a live snapshot, each step keeping the database invariant, reaches a version in which a compaction of that level can only have two given files as inputs; running it brings exactly the deleted key back: absent in the history and before, present after |
| ResurrectionExample.OnlyTheseInputs | frontend/Pods/leveldb-library/db/version_set.cc:1380-1439 | in that version every legal choice for the level has the same two input files, since boundary files are added to the level's inputs only |
| UndividedKeys.UndividedLosesNothing | frontend/Pods/leveldb-library/db/db_impl.cc:939-973 | when no two files of a level from 1 on share a user key, no compaction of that version brings a key back, whatever the snapshots |
| UndividedKeys.CompactionKeepsUndivided | frontend/Pods/leveldb-library/db/db_impl.cc:899-973 | a compaction with no live snapshot older than the last write keeps it so: one version per user key is kept, and an output shares no user key with a file that stays |
| UndividedKeys.FlushKeepsUndivided | frontend/Pods/leveldb-library/db/version_set.cc:470-496 | a flush keeps it so |
| UndividedKeys.MoveKeepsUndivided | frontend/Pods/leveldb-library/db/db_impl.cc:727-737 | a trivial move keeps it so |
| VersionBuilder.BySmallestKeyIsOrder | frontend/Pods/leveldb-library/db/version_set.cc:571-588 | files are ordered by smallest key, then by number |
| VersionBuilder.SortedFilesUnique | frontend/Pods/leveldb-library/db/version_set.cc:569-590 | a list sorted by that order is determined by its members |
| VersionBuilder.Builder.Apply | frontend/Pods/leveldb-library/db/version_set.cc:629-669 | per level, deletions are recorded and additions take their number out of the deleted set, whatever was applied before |
| VersionBuilder.Builder.SaveTo | frontend/Pods/leveldb-library/db/version_set.cc:672-729 | per level, the result is sorted and holds exactly the base and added files that are not deleted, unless an added file repeats number and smallest key of a base file |
| VersionBuilder.SaveLevel | frontend/Pods/leveldb-library/db/version_set.cc:680-700 | merging base and added files with an upper bound per added file gives a sorted list of exactly the files not deleted |
| VersionBuilder.ReplayEqualsStepwise | frontend/Pods/leveldb-library/db/version_set.cc:900-945 | applying a list of edits through one builder gives the same files, in the same order, as applying them one version at a time, when no number is added again to a level that held it |
| Manifests.SnapshotRebuilds | frontend/Pods/leveldb-library/db/version_set.cc:1064-1092 | the snapshot edit, applied to empty levels, gives exactly the current version |
| Manifests.RecordFlush | frontend/Pods/leveldb-library/db/db_impl.cc:544-575 | logging the edit of a flush keeps the manifest invariant: its number was never held by any level |
| Manifests.RecordCompaction | frontend/Pods/leveldb-library/db/db_impl.cc:869-885 | logging the edit of a merge keeps it: the output numbers are new |
| Manifests.RecordMove | frontend/Pods/leveldb-library/db/db_impl.cc:727-737 | logging the edit of a trivial move keeps it: files only move down, so the next level never held the number |
| Manifests.ReplayRebuilds | frontend/Pods/leveldb-library/db/version_set.cc:900-945 | one builder fed the snapshot and the first logged edits, from empty levels, rebuilds at every level the version after the last of them |
| Manifests.WrittenManifest | frontend/Pods/leveldb-library/db/version_set.cc:777-860 | the records that are written stand for the snapshot and the logged edits when the keys in them, the bounds of the files, come back from their bytes |
| Manifests.PackedKeySurvives | frontend/Pods/leveldb-library/db/dbformat.cc:21-24 | an internal key of 56-bit sequence number comes back from its bytes when its user key does |
| Manifests.SomeManifest | frontend/Pods/leveldb-library/db/version_set.cc:777-860 | whatever user keys a recording uses, there are bytes for them under which the written manifest stands for it |
| Manifests.PrefixDecodes | frontend/Pods/leveldb-library/db/version_set.cc:900-945 | any byte prefix of the manifest decodes, each record into a fresh edit, to exactly the edits of the records that end inside it |
| Manifests.ManifestRebuildsVersion | frontend/Pods/leveldb-library/db/version_set.cc:862-985 | reading any byte prefix of the manifest and saving one builder over empty levels gives at every level exactly the files of the version after the last whole edit |
| Manifests.Recover | frontend/Pods/leveldb-library/db/version_set.cc:862-985 | for any bytes: succeeds exactly when nothing is reported as corrupt, every record decodes under the right comparator, and next file, log and last sequence numbers occur; then the levels are those of one builder over all edits and the numbers the last ones noted |
| Manifests.RecoversLastVersion | frontend/Pods/leveldb-library/db/version_set.cc:862-985 | for any byte prefix of the manifest, recovery succeeds exactly when the snapshot and one edit are whole in it, and gives the version after the last whole edit with the numbers of that edit |
| Manifests.RecoversCurrentVersion | frontend/Pods/leveldb-library/db/version_set.cc:862-985 | recovery from the whole manifest succeeds and gives the current version |
| Manifests.RecoversInOrder | frontend/Pods/leveldb-library/db/version_set.cc:789-790 | the version recovered from any byte prefix is well formed with the recovered counters: its file numbers are unique and below the recovered next file number, and no entry has a sequence number above the recovered last one |
| Manifests.DecodedInRange | frontend/Pods/leveldb-library/db/version_edit.cc:95-103 | no decoded edit, of whatever bytes, names a level out of range |
| LevelSteps.CompactionKeepsInvariant | frontend/Pods/leveldb-library/db/db_impl.cc:869-885 | levels from 1 on stay sorted and disjoint, level-0 files with larger numbers stay newer, numbers stay unique, and every version of a key lies above all older versions in deeper levels |
| LevelSteps.FlushKeepsInvariant | frontend/Pods/leveldb-library/db/db_impl.cc:500-575 | the same invariant over a flush to level 0 or to a deeper level it may skip to, and the entries grow by exactly the flushed ones |
| LevelSteps.MovedNumbers | frontend/Pods/leveldb-library/db/db_impl.cc:727-737 | a trivial move keeps file numbers unique |
| Engine.MergeFilesSorted | frontend/Pods/leveldb-library/db/version_set.cc:1214-1245 | the merged input is sorted and holds exactly the entries of all input files |
| Engine.OutputsAreGood | frontend/Pods/leveldb-library/db/db_impl.cc:795-867 | cutting a sorted stream into numbered files gives valid, pairwise disjoint files that hold exactly the stream |
| Engine.CompactionEditCompacts | frontend/Pods/leveldb-library/db/db_impl.cc:869-885 | the edit of input deletions and output additions, applied through the builder, replaces exactly the inputs by the outputs |
| Database.WriteKeepsInv | frontend/Pods/leveldb-library/db/db_impl.cc:1195-1266 | writing the next version keeps the database invariant, with the plain history and the set of all entries grown by exactly that version |
| Database.FlushKeepsInv | frontend/Pods/leveldb-library/db/db_impl.cc:544-575 | installing the flushed table in place of the immutable memtable keeps the invariant and the set of all entries |
| Database.CompactionKeepsInv | frontend/Pods/leveldb-library/db/db_impl.cc:869-1058 | a compaction keeps the invariant; reads at and above the floor keep agreeing with the history for every key but the lost ones, to which exactly the keys it brings back are added |
| Database.MoveKeepsInv | frontend/Pods/leveldb-library/db/db_impl.cc:727-737 | a trivial move keeps the invariant and the set of all entries, hence every read |
| Database.Db.constructor | frontend/Pods/leveldb-library/db/db_impl.cc:126-150 | an empty database satisfies the invariant, has lost no key, and its manifest holds the snapshot and the opening edit |
| Database.Db.Write | frontend/Pods/leveldb-library/db/db_impl.cc:1195-1266 | a batch gets contiguous sequence numbers after the last one; the history and the set of all entries grow by exactly its versions, and the last sequence advances by its length |
| Database.Db.SwitchMemTable | frontend/Pods/leveldb-library/db/db_impl.cc:1355-1376 | retiring a full memtable changes neither the set of all entries nor anything else |
| Database.Db.Get | frontend/Pods/leveldb-library/db/db_impl.cc:1110-1155 | memtable, immutable memtable, then levels: the answer is the read over all entries at the snapshot, and for a key that no compaction has brought back it is the read of the plain history of writes |
| Database.Db.GetSnapshot | frontend/Pods/leveldb-library/db/db_impl.cc:1176-1179 | a snapshot is the last sequence, and later steps keep it readable |
| Database.Db.ReleaseSnapshot | frontend/Pods/leveldb-library/db/db_impl.cc:1181-1185 | only that snapshot leaves the list |
| Database.Db.OldestSnapshot | frontend/Pods/leveldb-library/db/db_impl.cc:899-903 | one of the live snapshots that none is below, or the last sequence when there is none |
| Database.Db.CompactMemTable | frontend/Pods/leveldb-library/db/db_impl.cc:544-575 | the immutable memtable becomes one table with the next number at exactly the level PickLevelForMemTableOutput allows, added to the files there; the set of all entries is the same, and the manifest has one edit more |
| Database.Db.RunCompaction | frontend/Pods/leveldb-library/db/db_impl.cc:706-776 | a request that is not manual moves a single file without parents and with at most 10 file sizes of grandparents; else the outputs hold exactly the entries the drop rules keep at the oldest live snapshot; the level and manifest invariants are kept, and the lost keys grow by exactly those this job brings back |
| Database.Db.BackgroundCompaction | frontend/Pods/leveldb-library/db/db_impl.cc:697-776 | flush first, else run on exactly the files the request or the pointer leads to, and do nothing exactly when there are none; the pointer becomes the largest key of the inputs, and the lost keys grow by exactly those the job brings back |
| Database.Db.Execute | frontend/Pods/leveldb-library/db/db_impl.cc:657-776 | over any run of writes, snapshots, memtable switches, flushes, moves and compactions the version and manifest invariants hold, every read at or above the floor of a key not lost equals the read of the history, and each step accounts for the keys lost in it; a run that starts compactions only while no live snapshot is older than the last write loses none |
| Database.QuietCompaction | frontend/Pods/leveldb-library/db/db_impl.cc:899-903 | a compaction while no live snapshot is older than the last write brings nothing back and keeps user keys undivided |
| DbIterator.ViewIsWhatReadsSee | frontend/Pods/leveldb-library/db/db_iter.cc:29-40 | the list the cursor moves on holds (key, value) exactly when a read of the key at the iterator's sequence answers that value |
| DbIterator.ViewSorted | frontend/Pods/leveldb-library/db/db_iter.cc:29-40 | that list is strictly ascending |
| DbIterator.DBIter.FindNextUserEntry | frontend/Pods/leveldb-library/db/db_iter.cc:177-207 | stops at the first live entry from the position on that lies above the key to skip |
| DbIterator.DBIter.FindPrevUserEntry | frontend/Pods/leveldb-library/db/db_iter.cc:236-276 | finds the newest visible version of the last live key at or before the position, and nothing live lies in between |
| DbIterator.DBIter.Next | frontend/Pods/leveldb-library/db/db_iter.cc:141-175 | moves the cursor one place up in the plain list, from either direction |
| DbIterator.DBIter.Prev | frontend/Pods/leveldb-library/db/db_iter.cc:209-234 | moves the cursor one place down, from either direction |
| DbIterator.DBIter.Seek | frontend/Pods/leveldb-library/db/db_iter.cc:278-290 | the cursor is at the first key at or above the target, or past the end exactly when there is none |
| DbIterator.DBIter.SeekToFirst | frontend/Pods/leveldb-library/db/db_iter.cc:292-301 | the first place, invalid exactly for an empty list |
| DbIterator.DBIter.SeekToLast | frontend/Pods/leveldb-library/db/db_iter.cc:303-308 | the last place, invalid exactly for an empty list |
| DbIterator.DBIter.Run | frontend/Pods/leveldb-library/db/db_iter.cc:141-308 | any run of seeks and steps in both directions shows, after every move, the pair the plain cursor on the list of visible pairs shows |
| LogFormat.UnmaskMask | frontend/Pods/leveldb-library/util/crc32c.h:29-38 | unmasking a masked checksum gives it back, for all 32-bit values |
| LogFormat.RecordIsRead | frontend/Pods/leveldb-library/db/log_reader.cc:56-174 | one record, wherever its first block starts, is read back whole or the file ends before its end; nothing is reported |
| LogFormat.PrefixReadsBack | frontend/Pods/leveldb-library/db/log_reader.cc:56-174 | reading any byte prefix of a log gives exactly the records that end inside it and reports no corruption |
| LogFormat.LogReadsBack | frontend/Pods/leveldb-library/db/log_reader.cc:56-174 | reading a whole log gives exactly its records, of any lengths |
| LogFormat.LayoutAppend | frontend/Pods/leveldb-library/db/log_writer.cc:27-32 | appending to an existing log continues its blocks where they stand |
| LogFormat.PieceStaysInBlock | frontend/Pods/leveldb-library/db/log_writer.cc:34-80 | each physical record lies within one block of 32768 bytes and fills it when the record goes on; at most six bytes are skipped, and only at the end of a block |
| LogFormat.KnownRecord | frontend/Pods/leveldb-library/db/log_writer.cc:82-108 | one record written out byte by byte: masked checksum, length, type, payload |
| LogFormat.OnlyStoredIsReturned | frontend/Pods/leveldb-library/db/log_reader.cc:56-271 | whatever the bytes of the file, every record returned stands in it as one full record or as a first, middle and last ones, each right behind the one before, with the checksum in its header; nothing else is ever returned |
| LogFormat.MismatchIsReported | frontend/Pods/leveldb-library/db/log_reader.cc:243-257 | a physical record whose checksum does not match is withheld: it and the rest of its block are skipped and reported, as is what had been collected before it |
| LogFormat.BadLengthIsReported | frontend/Pods/leveldb-library/db/log_reader.cc:222-234 | a length that leaves its block is reported with the rest of the block; at the end of the file it ends the log without a report |
| LogFormat.ZerosAreSkipped | frontend/Pods/leveldb-library/db/log_reader.cc:235-241 | a header of zeros, as preallocation leaves it, is skipped with the rest of its block without a report |
| LogFormat.FragmentsAreAccountedFor | frontend/Pods/leveldb-library/db/log_reader.cc:86-174 | no fragment is lost without a report: what one step reads and what had been collected is returned, kept or reported, byte for byte |
| LogFiles.Writer.AddRecord | frontend/Pods/leveldb-library/db/log_writer.cc:34-80 | the file grows by exactly the layout of the record at its position: trailers, fragments of type full, first, middle or last |
| LogFiles.Writer.EmitPhysicalRecord | frontend/Pods/leveldb-library/db/log_writer.cc:82-108 | masked checksum over type and payload, 16-bit length, type, payload |
| LogFiles.Reader.ReadPhysicalRecord | frontend/Pods/leveldb-library/db/log_reader.cc:189-271 | with buffering in blocks, the same result, position and reported bytes as reading the file directly, for any file |
| LogFiles.Reader.ReadRecord | frontend/Pods/leveldb-library/db/log_reader.cc:56-174 | the reassembly of any file, corrupt or not: record, position and every reported drop |
| LogFiles.ReadLog | frontend/Pods/leveldb-library/db/db_impl.cc:421-427 | the recovery loop over a prefix of what was written returns the records that end inside it, with no report |
| Coding.VarintRoundTripFrom | frontend/Pods/leveldb-library/util/coding.cc:86-131 | a varint read at any weight adds exactly its value and leaves the rest |
| Coding.Varint32RoundTrip | frontend/Pods/leveldb-library/util/coding.cc:86-114 | every 32-bit value is read back, whatever follows |
| Coding.Varint64RoundTrip | frontend/Pods/leveldb-library/util/coding.cc:116-143 | every 64-bit value is read back, whatever follows |
| Coding.EncodeVarint32 | frontend/Pods/leveldb-library/util/coding.cc:21-47 | the five cases of the code write the base-128 digits, least significant first |
| Coding.EncodeVarint64 | frontend/Pods/leveldb-library/util/coding.cc:55-64 | the loop writes the base-128 digits, least significant first |
| Coding.LengthPrefixedRoundTrip | frontend/Pods/leveldb-library/util/coding.cc:72-75 | a length-prefixed string is read back, whatever follows |
| Coding.Fixed64RoundTrip | frontend/Pods/leveldb-library/util/coding.h:64-103 | eight little-endian bytes decode to the value written |
| Coding.LowestByteFirst | frontend/Pods/leveldb-library/util/coding.h:54-79 | fixed-length numbers are stored lowest byte first |
| Coding.VarintIs | frontend/Pods/leveldb-library/util/coding.cc:21-64 | byte i of a varint holds the i-th group of seven bits, exactly the last byte lacks the high bit, and there is no byte too many |
| Coding.CutPrefixed | frontend/Pods/leveldb-library/util/coding.cc:86-155 | a length-prefixed string that is cut off anywhere is rejected |
| WriteBatches.OpsRoundTrip | frontend/Pods/leveldb-library/db/write_batch.cc:42-80 | iterating what Put and Delete wrote hands over exactly those operations, in order |
| WriteBatches.EncodeInjective | frontend/Pods/leveldb-library/db/write_batch.cc:98-117 | different operation lists have different representations |
| WriteBatches.CutOffIsReported | frontend/Pods/leveldb-library/db/write_batch.cc:42-80 | an operation cut off at any byte ends the iteration with the error of its kind, after the operations before it |
| WriteBatches.JunkIsReported | frontend/Pods/leveldb-library/db/write_batch.cc:42-80 | a tag that does not exist ends the iteration with an error, after the operations before it |
| WriteBatches.KnownBatch | frontend/Pods/leveldb-library/db/write_batch.cc:5-14 | a batch of two operations written out byte by byte |
| WriteBatches.WriteBatch.Put | frontend/Pods/leveldb-library/db/write_batch.cc:98-103 | appends one put and counts it, keeping the sequence number |
| WriteBatches.WriteBatch.Delete | frontend/Pods/leveldb-library/db/write_batch.cc:105-109 | appends one deletion and counts it |
| WriteBatches.WriteBatch.Append | frontend/Pods/leveldb-library/db/write_batch.cc:144-148 | the operations of the source follow those of the destination; counts add up |
| WriteBatches.WriteBatch.SetSequence | frontend/Pods/leveldb-library/db/write_batch.cc:94-96 | only the sequence number changes |
| WriteBatches.WriteBatch.Iterate | frontend/Pods/leveldb-library/db/write_batch.cc:42-80 | a valid batch hands over its operations; a malformed one hands over those before the fault and reports it, and a wrong count is reported exactly when there was no other fault |
| GroupCommit.WriteQueue.BuildBatchGroup | frontend/Pods/leveldb-library/db/db_impl.cc:1270-1316 | the group is a prefix of the queue and its batch holds their operations in order; a sync writer never joins a non-sync leader; with every batch that joins, the sizes stay within 1 MB, or 128 KB more than a first batch of at most 128 KB; and the group ends only at such a writer, at a batch that would exceed this, or at the end of the queue |
| GroupCommit.WriteQueue.Lead | frontend/Pods/leveldb-library/db/db_impl.cc:1195-1266 | the whole protocol of a leader: the group is the one BuildBatchGroup describes, contiguous sequence numbers from the last one on, log before memtable, all or nothing, each grouped writer answered once with the leader's status, everyone else untouched; between any two inserts a reader at a number published before sees what it saw, and at the new last sequence everything is visible |
| GroupCommit.WriteQueue.Commit | frontend/Pods/leveldb-library/db/db_impl.cc:1223-1246 | log, sync, insert: the memtable is the replay of the log exactly when no failed sync has left a record of a non-empty group behind |
| GroupCommit.WriteQueue.InsertInto | frontend/Pods/leveldb-library/db/write_batch.cc:119-137 | operations enter the memtable in order with ascending sequence numbers; every memtable in between shows a reader at the old number, or an older one, what it saw before |
| GroupCommit.PublishedSeesWholeGroups | frontend/Pods/leveldb-library/db/db_impl.cc:1195-1266 | a reader at any sequence number ever published sees a first run of the committed groups, each whole |
| GroupCommit.BatchWholeOrNot | frontend/Pods/leveldb-library/db/write_batch.cc:119-137 | so every batch within a group is visible whole or not at all |
| GroupCommit.WriteQueue.Answer | frontend/Pods/leveldb-library/db/db_impl.cc:1249-1258 | every other member of the group is told the status exactly once, and the group leaves the queue |
| GroupCommit.LaterIsInvisible | frontend/Pods/leveldb-library/db/db_impl.cc:1110-1120 | a reader at a sequence number sees nothing of versions written above it |
| GroupCommit.ReplayOne | frontend/Pods/leveldb-library/db/db_impl.cc:427-448 | replaying one more log record stamps its operations exactly as the writer did |
| SkipLists.CountBeforeSplits | frontend/Pods/leveldb-library/db/skiplist.h:262-282 | in a sorted list the nodes before a key are exactly a first run |
| SkipLists.SkipList.FindGreaterOrEqual | frontend/Pods/leveldb-library/db/skiplist.h:260-282 | the first node of level 0 at or above the key, and on every level the last node before it |
| SkipLists.SkipList.FindLessThan | frontend/Pods/leveldb-library/db/skiplist.h:284-302 | the last node of level 0 below the key, or the head |
| SkipLists.SkipList.FindLast | frontend/Pods/leveldb-library/db/skiplist.h:304-322 | the last node of level 0, or the head |
| SkipLists.SkipList.Contains | frontend/Pods/leveldb-library/db/skiplist.h:370-378 | true if and only if some node of level 0 has the key |
| SkipLists.SkipList.StorePrev | frontend/Pods/leveldb-library/db/skiplist.h:361-367 | the one store that makes a node visible on a level: all levels stay sorted, each within the one below, and only this level grows |
| SkipLists.Insertion.Step | frontend/Pods/leveldb-library/db/skiplist.h:361-367 | after every single pointer store the list is valid |
| SkipLists.Insert | frontend/Pods/leveldb-library/db/skiplist.h:336-368 | exactly the levels below the random height get the new node, at its sorted place |
| SkipLists.InsertedSorted | frontend/Pods/leveldb-library/db/skiplist.h:336-368 | inserting at that place keeps a level sorted, and its nodes are the old ones and the new one |
| SkipLists.Search.Step | frontend/Pods/leveldb-library/db/skiplist.h:260-282 | a reader's answer is right for the list as it is at the moment it is found |
| SkipLists.SearchDuringInsertion | frontend/Pods/leveldb-library/db/skiplist.h:336-368 | for any interleaving of a reader's loads with an insertion's stores, the answer is the one for the list before or after |
| SkipLists.SearchDuringInsertions | frontend/Pods/leveldb-library/db/skiplist.h:260-282 | for any interleaving of a reader's loads with the stores of any number of insertions, the answer is right for the list at some moment in between; a key present at the start is found |
| MemTables.CountIsSeekIndex | frontend/Pods/leveldb-library/db/memtable.cc:101-135 | a seek in the skip list and in the sorted run of its entries stop at the same place |
| MemTables.InsertedContents | frontend/Pods/leveldb-library/db/memtable.cc:76-99 | insertion adds exactly the one entry |
| MemTables.MemTable.Add | frontend/Pods/leveldb-library/db/memtable.cc:76-99 | the contents grow by exactly that version |
| MemTables.MemTable.Get | frontend/Pods/leveldb-library/db/memtable.cc:101-135 | the newest version of the key at or below the snapshot, deletions included |
| Blocks.HeaderRoundTrip | frontend/Pods/leveldb-library/table/block.cc:55-76 | the three lengths of an entry are read back by the fast path and by the slow one alike |
| Blocks.Iter.ParseNextKey | frontend/Pods/leveldb-library/table/block.cc:225-252 | in a well-formed block, reads exactly the next entry, or becomes invalid at the end |
| Blocks.Iter.Seek | frontend/Pods/leveldb-library/table/block.cc:164-202 | the first entry at or above the target, invalid exactly when there is none |
| Blocks.Iter.LastRestartBelow | frontend/Pods/leveldb-library/table/block.cc:167-190 | binary search over the restart points: the wanted entry is not before the returned restart point and not after the next |
| Blocks.Iter.Next | frontend/Pods/leveldb-library/table/block.cc:138-141 | one entry forward |
| Blocks.Iter.Prev | frontend/Pods/leveldb-library/table/block.cc:143-162 | one entry back, invalid before the first |
| Blocks.Iter.SeekToFirst | frontend/Pods/leveldb-library/table/block.cc:204-207 | the first entry, invalid exactly for an empty block |
| Blocks.Iter.SeekToLast | frontend/Pods/leveldb-library/table/block.cc:209-214 | the last entry, invalid exactly for an empty block |
| Blocks.BlockBuilder.Add | frontend/Pods/leveldb-library/table/block_builder.cc:71-105 | after each entry the buffer is a prefix-compressed form of all entries so far: a restart falls exactly every interval entries, an entry there shares nothing, and any other shares the longest common prefix with the key before it |
| Blocks.ExtendCompressed | frontend/Pods/leveldb-library/table/block_builder.cc:71-105 | one entry more keeps the restarts at that distance and the shared prefixes longest |
| Blocks.KnownBlock | frontend/Pods/leveldb-library/table/block_builder.cc:17-28 | a block of two entries written out byte by byte |
| Blocks.WrittenIsWellFormed | frontend/Pods/leveldb-library/table/block_builder.cc:71-105 | what the builder writes is a well-formed block of its entries |
| Blocks.OpenFinished | frontend/Pods/leveldb-library/table/block_builder.cc:61-69 | opening a finished block gives back its data and restart points |
| Blocks.RestartArrayAt | frontend/Pods/leveldb-library/table/block_builder.cc:61-69 | restart point j is the j-th fixed 32-bit number of the trailer |
| VersionEdits.PayloadRoundTrip | frontend/Pods/leveldb-library/db/version_edit.cc:105-180 | each kind of field is read back, whatever follows |
| VersionEdits.FieldsRoundTrip | frontend/Pods/leveldb-library/db/version_edit.cc:105-180 | decoding a list of fields sets them one after the other |
| VersionEdits.UnknownTagFails | frontend/Pods/leveldb-library/db/version_edit.cc:105-203 | a tag that does not exist makes the whole edit fail, after the fields before it |
| VersionEdits.LevelOutOfRangeFails | frontend/Pods/leveldb-library/db/version_edit.cc:95-103 | so does a level from 7 on |
| VersionEdits.KnownFields | frontend/Pods/leveldb-library/db/version_edit.cc:14-84 | each kind of field written out byte by byte |
| VersionEdits.DecodeEncoded | frontend/Pods/leveldb-library/db/version_edit.cc:41-84 | decoding what was encoded gives the edit back, behind the compaction pointers the object already had |
| VersionEdits.RoundTripExactlyWhenFresh | frontend/Pods/leveldb-library/db/version_edit.cc:26-39 | the round trip holds if and only if the decoding object had no compaction pointers, since clearing keeps them |
| VersionEdits.VersionEdit.EncodeTo | frontend/Pods/leveldb-library/db/version_edit.cc:41-84 | appends the fields in the order of the code |
| VersionEdits.VersionEdit.DecodeFrom | frontend/Pods/leveldb-library/db/version_edit.cc:105-203 | accepts and sets exactly what the field decoder does, for any bytes |
| VersionEdits.ManifestReadsBack | frontend/Pods/leveldb-library/db/version_set.cc:900-945 | reading any byte prefix of a manifest gives back a prefix of its edits, with no corruption reported |
| PbWire.Varint32ReadsBack | frontend/Pods/nanopb/pb_decode.c:187-252 | every 32-bit value written as a varint is read back by the 32-bit decoder, whatever follows |
| PbWire.SignExtendedReadsBack | frontend/Pods/nanopb/pb_decode.c:213-236 | a negative 32-bit number sent as ten bytes is read as its low 32 bits |
| PbWire.Varint32InRange | frontend/Pods/nanopb/pb_decode.c:187-252 | whatever the bytes, a decoded value has 32 bits |
| PbWire.ZigZagIs | frontend/Pods/nanopb/pb_encode.c:630-639 | zigzag maps v to 2v, and to -2v-1 for negative v |
| PbWire.ZigZagReadsBack | frontend/Pods/nanopb/pb_decode.c:1279-1291 | the decoder inverts it for every 64-bit value |
| PbWire.UnsignedReadsBack | frontend/Pods/nanopb/pb_decode.c:1339-1374 | a negative number sent as its 64-bit pattern comes back through the 8, 16, 32 and 64-bit casts |
| PbWire.TagReadsBack | frontend/Pods/nanopb/pb_decode.c:298-319 | tag number and wire type are read back |
| PbMessages.ZeroIsDefault | frontend/Pods/nanopb/pb_encode.c:240-338 | a field left out because it is zero is what the decoder starts from, submessages included |
| PbEncode.LeftOutExactlyWhen | frontend/Pods/nanopb/pb_encode.c:240-425 | a field takes no bytes if and only if it is an absent optional or oneof member, an empty array, or, without a has_ flag, a zero number or an empty string |
| PbEncode.DefaultsTakeNoBytes | frontend/Pods/nanopb/pb_encode.c:240-425 | a message at its defaults, without required fields and uncounted arrays, takes no bytes, at any depth |
| PbEncode.OStream.Write | frontend/Pods/nanopb/pb_encode.c:103-126 | succeeds exactly when there is room, and a sizing stream counts what a writing one emits |
| PbEncode.OStream.WriteVarint | frontend/Pods/nanopb/pb_encode.c:608-628 | succeeds exactly when there is room, and then emits or counts the base-128 digits |
| PbEncode.WriteSubmessage | frontend/Pods/nanopb/pb_encode.c:717-765 | size first, then write: the size never changes in between, and it fails only for lack of room or an unencodable member |
| PbEncode.WriteMessage | frontend/Pods/nanopb/pb_encode.c:528-550 | both passes run the same code; the sizing pass counts exactly the bytes the writing pass emits |
| PbEncode.WriteField | frontend/Pods/nanopb/pb_encode.c:341-425 | required, optional, implicit, repeated, fixed-count and oneof members, with the presence tests of the code |
| PbEncode.WriteArray | frontend/Pods/nanopb/pb_encode.c:147-236 | packed or item by item; an array over its limit fails |
| PbEncode.WritePacked | frontend/Pods/nanopb/pb_encode.c:163-205 | the declared length is the length of the elements, by multiplication or by a sizing pass |
| PbEncode.FixedSize | frontend/Pods/nanopb/pb_encode.c:170-177 | for fixed-size elements the multiplication is the sum of their sizes |
| PbRoundTrip.ValueReadsBack | frontend/Pods/nanopb/pb_decode.c:1328-1560 | a value is read back if it can be restored, and rejected if not |
| PbRoundTrip.PackedReadsBack | frontend/Pods/nanopb/pb_decode.c:425-453 | a packed array is read back element by element |
| PbRoundTrip.MessageReadsBack | frontend/Pods/nanopb/pb_decode.c:928-1076 | decoding into the defaults restores the message, required and fixed-count checks included |
| PbRoundTrip.OneofNext | frontend/Pods/nanopb/pb_decode.c:406-483 | setting the one present member of a oneof changes no other field |
| PbRoundTrip.DecodesExactlyWhenRestorable | frontend/Pods/nanopb/pb_decode.c:1078-1090 | for every descriptor tree and accepted message, decoding the encoding gives the message back if and only if every string has room for its terminator; otherwise decoding fails |
| PbEvolution.UnknownFieldIsSkipped | frontend/Pods/nanopb/pb_decode.c:321-331 | a field that the descriptor does not have, of any wire type and contents, changes nothing wherever the loop meets it |
| PbEvolution.UnknownFieldInFront | frontend/Pods/nanopb/pb_decode.c:944-990 | the same for a field in front of any message |
| PbEvolution.BadFieldIsRejected | frontend/Pods/nanopb/pb_decode.c:321-331 | an unknown field of a wire type that does not exist, or cut off, is an error |
| PbEvolution.SlotIsSkipped | frontend/Pods/nanopb/pb_decode.c:984-988 | everything the encoder writes for one field is skipped by a reader that does not know that field |
| PbEvolution.OlderReaderSkips | frontend/Pods/nanopb/pb_decode.c:928-1076 | a message decodes, under a descriptor that lacks any of its fields, its own or those of its submessages at any depth, to the same message without them, if and only if the strings that are left have room for their terminators, and is rejected otherwise |
| PbEvolution.AcceptedExactlyWhen | frontend/Pods/nanopb/pb_decode.c:1026-1073 | any bytes are accepted if and only if the loop gets through them, the last uncounted array is complete and the tag of each of the first 64 required fields was met |
| PbEvolution.RequiredMustOccur | frontend/Pods/nanopb/pb_decode.c:1034-1073 | bytes in which the tag of one of the first 64 required fields can nowhere be read are rejected |
| PbMerging.LoopGoesOn | frontend/Pods/nanopb/pb_decode.c:944-1024 | when the loop uses up a first input, the concatenation with a second decodes as the second does from where the first has left the message |
| PbMerging.LastOneWins | frontend/Pods/nanopb/pb_decode.c:403-483 | of two values of a field that is not repeated, or of two members of a oneof, the later one counts, wherever the loop stands and whatever follows |
| PbMerging.PartsAreMerged | frontend/Pods/nanopb/pb_decode.c:1519-1540 | a submessage sent in two parts is the submessage sent at once: the second part is merged into what the first has set |
| PbMerging.UnpackedReadsBack | frontend/Pods/nanopb/pb_decode.c:455-464 | the numbers of a repeated field are read the same when each comes with a tag of its own as when they come packed |
| PbBounds.DecodeStaysInBounds | frontend/Pods/nanopb/pb_decode.c:928-1560 | whatever the bytes, in a message that is accepted each number is in the range of its type, strings and bytes fit their fields, arrays hold no more than their room, uncounted ones are absent or complete, and at most one member of a oneof is set |
| PbStreams.FieldIter.Next | frontend/Pods/nanopb/pb_common.c:20-76 | one field on, wrapping around after the last |
| PbStreams.FieldIter.FindTag | frontend/Pods/nanopb/pb_common.c:78-96 | finds a field with the tag from wherever it stands, and fails only if there is none |
| PbStreams.FieldIter.CountRequired | frontend/Pods/nanopb/pb_decode.c:1034-1052 | the wrapping walk counts every required field |
| PbStreams.FindIs | frontend/Pods/nanopb/pb_common.c:78-96 | with distinct tags the result does not depend on where the search starts |
| PbStreams.IStream.ReadVarint32 | frontend/Pods/nanopb/pb_decode.c:187-252 | accepts, rejects and consumes as the decoding function does, for any bytes |
| PbStreams.ReadElements | frontend/Pods/nanopb/pb_decode.c:424-464 | one tag of a repeated field, packed or not, for any bytes |
| PbStreams.ReadNoinit | frontend/Pods/nanopb/pb_decode.c:928-1076 | the whole decoder loop with its bitmap of required fields and the skipping of unknown fields, for any bytes, as the decoding function that the laws of PbEvolution and PbBounds are about |
| PbStreams.ReadMessage | frontend/Pods/nanopb/pb_decode.c:1078-1090 | defaults, then the loop, for any bytes, as that function |
| Punycode.IntRoundTrip | frontend/Pods/Libuv-gRPC/src/idna.c:192-218 | a variable-length integer is read back at any weight, as section 6.2 of RFC 3492 decodes it |
| Punycode.RunOneMore | frontend/Pods/Libuv-gRPC/src/idna.c:183-243 | one more encoded delta makes the decoder insert at exactly that place |
| Punycode.DecodesWithBasics | frontend/Pods/Libuv-gRPC/src/idna.c:192-236 | the decoder maps "bcher-kva" to the code points of "bücher" |
| Punycode.DecodesWithoutBasics | frontend/Pods/Libuv-gRPC/src/idna.c:192-236 | and "4ca0bs" to those of "äöü", through both kinds of bias adaptation |
| Utf8.DecodeInvertsEncode | frontend/Pods/Libuv-gRPC/src/idna.c:24-100 | every sequence of Unicode scalar values, encoded, is decoded back |
| Utf8.TwoBytesAcceptedIff | frontend/Pods/Libuv-gRPC/src/idna.c:56-88 | a two-byte sequence is accepted if and only if it is well formed |
| Utf8.ThreeBytesAcceptedIff | frontend/Pods/Libuv-gRPC/src/idna.c:46-86 | a three-byte sequence is accepted if and only if its trailing bytes agree in their top two bits and its value is in range; it is well formed if and only if those bits are also 10 |
| Utf8.FourBytesAcceptedIff | frontend/Pods/Libuv-gRPC/src/idna.c:36-86 | a four-byte sequence is accepted if and only if the top bits of its trailing bytes give 10 by exclusive or and its value is in range; it is well formed if and only if each pair is 10 |
| Utf8.DecodedIsUtf8Iff | frontend/Pods/Libuv-gRPC/src/idna.c:24-100 | decoding all bytes to cps with every trailing byte a continuation byte and the last sequence complete holds if and only if the bytes are the UTF-8 form of the scalar values cps |
| Utf8.ContinuedDecodesIff | frontend/Pods/Libuv-gRPC/src/idna.c:24-100 | bytes are UTF-8 if and only if they decode and pass that test |
| Utf8.CutOffIsDropped | frontend/Pods/Libuv-gRPC/src/idna.c:99-100 | a last sequence cut off by the end of the label is dropped without an error, whatever it holds |
| Utf8.SomeMalformedSequencesPass | frontend/Pods/Libuv-gRPC/src/idna.c:46-86 | an accepted sequence that is not well formed: the xor test lets two continuation bytes pass that are both wrong |
| Idna.CountKinds | frontend/Pods/Libuv-gRPC/src/idna.c:120-131 | rejects exactly the labels that do not decode, and counts ASCII and other code points |
| Idna.CopyAscii | frontend/Pods/Libuv-gRPC/src/idna.c:140-151 | the ASCII characters of the label, in order, stopping after the last |
| Idna.AdaptBias | frontend/Pods/Libuv-gRPC/src/idna.c:220-236 | the bias adaptation of section 6.1 of RFC 3492, with the code's order of divisions |
| Idna.EmitInt | frontend/Pods/Libuv-gRPC/src/idna.c:192-218 | the digits of a delta |
| Idna.EmitKeepsSynced | frontend/Pods/Libuv-gRPC/src/idna.c:192-240 | writing a delta keeps the decoder of section 6.2 in step: it inserts the code point where it stands in the label |
| Idna.OverflowCheck | frontend/Pods/Libuv-gRPC/src/idna.c:174-180 | the test against the complement of delta is exactly the test that the new delta fits in 32 bits |
| Idna.SkipAhead | frontend/Pods/Libuv-gRPC/src/idna.c:167-181 | moves to the smallest code point still to be written; refused exactly when the places skipped do not fit in 32 bits |
| Idna.Sweep | frontend/Pods/Libuv-gRPC/src/idna.c:183-239 | one pass writes a delta at every occurrence of one code point; refused exactly when the delta of its first occurrence does not fit in 32 bits |
| Idna.WriteDeltas | frontend/Pods/Libuv-gRPC/src/idna.c:161-241 | the outer loop is refused exactly when for some two neighbouring code points of the label the places between them do not fit in 32 bits |
| Idna.DecodesBack | frontend/Pods/Libuv-gRPC/src/idna.c:102-246 | when nothing is left to write, the decoder maps the output back to the code points |
| Idna.ToAsciiLabel | frontend/Pods/Libuv-gRPC/src/idna.c:102-246 | rejects exactly the labels that do not decode, so every UTF-8 label is taken; copies an ASCII label unchanged; refuses exactly those with a delta that does not fit in 32 bits; otherwise writes "xn--", the ASCII characters, "-" if there are any, and then only a-z and 0-9, which the decoder of section 6.2 of RFC 3492 maps back to the label's code points |
| ThreadPool.Pool.Post | frontend/Pods/Libuv-gRPC/src/threadpool.c:142-160 | a slow request goes to the pending queue and the message is queued once; whenever something is queued and a worker sleeps, one is signaled |
| ThreadPool.Pool.Submit | frontend/Pods/Libuv-gRPC/src/threadpool.c:256-266 | the request is queued once, at the end, in the queue of its kind |
| ThreadPool.Pool.WorkerSection | frontend/Pods/Libuv-gRPC/src/threadpool.c:65-138 | from taking the mutex to letting go of it, exactly: an exit message is obeyed, a request at the head is run, the message for slow requests runs the oldest of them while fewer than (threads + 1) / 2 run, and is else put behind the rest, or dropped when none pends; a worker waits only with an empty queue, or with that message alone and (threads + 1) / 2 slow requests running |
| ThreadPool.Pool.TakeSlow | frontend/Pods/Libuv-gRPC/src/threadpool.c:90-117 | the message runs the oldest pending slow request exactly when one pends and fewer than (threads + 1) / 2 run; it is queued again if more pend or none may run |
| ThreadPool.Pool.FinishWork | frontend/Pods/Libuv-gRPC/src/threadpool.c:121-131 | the request is handed to its loop once, not cancelled |
| ThreadPool.Pool.Cancel | frontend/Pods/Libuv-gRPC/src/threadpool.c:269-283 | succeeds exactly if the request has not been taken by a worker; then it is in no queue and never runs |
| ThreadPool.Pool.ReturnCancelled | frontend/Pods/Libuv-gRPC/src/threadpool.c:285-291 | a cancelled request is handed to its loop as cancelled |
| ThreadPool.Pool.BeginWorkDone | frontend/Pods/Libuv-gRPC/src/threadpool.c:295-306 | the finished requests move to a local queue in order |
| ThreadPool.Pool.CallDone | frontend/Pods/Libuv-gRPC/src/threadpool.c:306-315 | a request's done callback is called at most once, with UV_ECANCELED exactly if it never ran |
| ThreadPool.Pool.Execute | frontend/Pods/Libuv-gRPC/src/threadpool.c:57-315 | the invariant holds after any schedule of any number of workers, posters, cancellers and loops |
| ThreadPool.ReachableStatesAreSafe | frontend/Pods/Libuv-gRPC/src/threadpool.c:57-160 | with the mutex free: running slow requests are at most (threads + 1) / 2, pending slow work implies the message is queued, no request is both run and cancelled, done callbacks are called at most once, and queued work never coexists with all workers asleep and unsignalled |
| ThreadPool.WorkersOnlySleepWhenIdle | frontend/Pods/Libuv-gRPC/src/threadpool.c:57-160 | in every such state in which some worker sleeps, at least as many workers are about to look at the queue as it holds requests; and when none is, there is nothing to do, or only slow requests pend while exactly (threads + 1) / 2 of them are in their callbacks |
| TimerHeap.Heap.NodeSwap | frontend/Pods/Libuv-gRPC/src/heap-inl.h:72-104 | rewiring every pointer of two adjacent nodes exchanges exactly their two places |
| TimerHeap.Heap.Walk | frontend/Pods/Libuv-gRPC/src/heap-inl.h:119-136 | the bits of a node number lead to the pointer that holds that node and to its parent's |
| TimerHeap.Heap.Insert | frontend/Pods/Libuv-gRPC/src/heap-inl.h:106-148 | links consistent, complete tree of nelts nodes, min-heap order, and exactly one node more |
| TimerHeap.Heap.Remove | frontend/Pods/Libuv-gRPC/src/heap-inl.h:150-237 | the same for the removal of any node: exactly that node is gone |
| TimerHeap.DownStep | frontend/Pods/Libuv-gRPC/src/heap-inl.h:216-229 | swapping with the least child moves the one disorder down |
| TimerHeap.UpStep | frontend/Pods/Libuv-gRPC/src/heap-inl.h:143-147 | swapping with the parent moves the one disorder up |
| TimerHeap.RootIsLeast | frontend/Pods/Libuv-gRPC/src/heap-inl.h:67-69 | no node is before the root |
| TimerHeap.LessThanIsLess | frontend/Pods/Libuv-gRPC/src/timer.c:38-55 | the comparison is the order by (timeout, start id) |
| Timers.TimerLoop.Start | frontend/Pods/Libuv-gRPC/src/timer.c:66-94 | EINVAL exactly for a closing handle or no callback, else armed at now + timeout, saturated, with a fresh start id |
| Timers.TimerLoop.Stop | frontend/Pods/Libuv-gRPC/src/timer.c:97-107 | the timer leaves the heap; no other does |
| Timers.TimerLoop.Again | frontend/Pods/Libuv-gRPC/src/timer.c:110-120 | a repeating timer is stopped and armed again with its repeat |
| Timers.TimerLoop.NextTimeout | frontend/Pods/Libuv-gRPC/src/timer.c:133-151 | -1 exactly without timers, 0 exactly when one is due, else the time to the first, cut off at INT_MAX |
| Timers.TimerLoop.RunTimers | frontend/Pods/Libuv-gRPC/src/timer.c:154-171 | terminates and calls each due timer exactly once in (timeout, start id) order, whether it repeats or not; other timers are untouched |
| Timers.TimerLoop.RunTurns | frontend/Pods/Libuv-gRPC/src/timer.c:154-171 | with the loop time at its maximum, a due timer that repeats is due again after any number of turns, so the loop does not end |
| Timers.Clamp | frontend/Pods/Libuv-gRPC/src/timer.c:78-80 | the wrap-around test saturates the sum |
| Timers.LeastTimer | frontend/Pods/Libuv-gRPC/src/timer.c:154-163 | the root of the heap is the first timer |
| InetText.DottedIsTheOnlySpelling | frontend/Pods/Libuv-gRPC/src/inet.c:179-215 | inet_pton4 accepts a text as an address if and only if it is exactly what inet_ntop4 writes for it |
| InetText.SpellingIsRead | frontend/Pods/Libuv-gRPC/src/inet.c:218-302 | every spelling of an IPv6 address (section 2.2 of RFC 4291: any digits, any place of "::", dotted quad last) is read as that address |
| InetText.ReadsExactlySpellings | frontend/Pods/Libuv-gRPC/src/inet.c:218-302 | inet_pton6 accepts a text as an address if and only if the text is such a spelling of it |
| Inet.FindBestRun | frontend/Pods/Libuv-gRPC/src/inet.c:88-111 | the run of zeros to shorten is the first of the longest runs, of length at least 2, or there is none (sections 4.2.2 and 4.2.3 of RFC 5952) |
| Inet.DottedExactlyWhen | frontend/Pods/Libuv-gRPC/src/inet.c:128-137 | an embedded IPv4 address is written exactly for ::a.b.c.d with a.b not zero and for ::ffff:a.b.c.d; the case of a run of 7 is never reached |
| Inet.InetNtop6 | frontend/Pods/Libuv-gRPC/src/inet.c:67-147 | the text is the canonical one and fits the buffer of 46; what a short buffer gets, and that size 0 is reported as success |
| Inet.TextReadsBack | frontend/Pods/Libuv-gRPC/src/inet.c:67-147 | reading the text of any 16-byte address gives the address back, embedded IPv4 forms included |
| Inet.TextIsUnique | frontend/Pods/Libuv-gRPC/src/inet.c:67-147 | an address has one text |
| Inet.TextIsTidy | frontend/Pods/Libuv-gRPC/src/inet.c:67-147 | the text has no upper-case letters and no group with a leading zero (sections 4.1 and 4.3 of RFC 5952) |
| Inet.InetPton4 | frontend/Pods/Libuv-gRPC/src/inet.c:179-215 | the loop over octets, for any text |
| Inet.InetPton6 | frontend/Pods/Libuv-gRPC/src/inet.c:218-302 | the loop over groups and the shift by hand, for any text |
| Inet.ShiftToEnd | frontend/Pods/Libuv-gRPC/src/inet.c:282-297 | the bytes after "::" end up at the end of the buffer with zeros in between |
| Inet.UvInetNtop | frontend/Pods/Libuv-gRPC/src/inet.c:40-50 | either family: the text written reads back as the address, and is tidy for IPv6 |
| Inet.UvInetPton | frontend/Pods/Libuv-gRPC/src/inet.c:150-176 | an IPv6 zone is cut off, unless the address before it is longer than the buffer |
| Inet.ZoneIsIgnored | frontend/Pods/Libuv-gRPC/src/inet.c:157-171 | with any zone after it the text of an address still reads back as the address |
| SlidingWindow.DeterminePossession | backend/logic/predictions_logic.py:151-161 | the player of the first near (ball, player) pair, balls before players |
| SlidingWindow.DetectShots | backend/logic/predictions_logic.py:163-171 | exactly the balls near some rim |
| SlidingWindow.NearIsWithinFifty | backend/logic/predictions_logic.py:128-135 | two boxes are near exactly when the distance of their centres is below 50 |
| SlidingWindow.AggregateIsSpec | backend/logic/predictions_logic.py:201-208 | for a window of w frames the state is the possession of the last and whether any of the w shows a shot |
| SlidingWindow.Detector.ProcessFrames | backend/logic/predictions_logic.py:277-304 | the events are exactly those of the frames whose aggregated state changes, in order, and the statistics are booked event by event |
| SlidingWindow.Detector.UpdatePlayerStats | backend/logic/predictions_logic.py:251-275 | books one event on one player and leaves all others |
| SlidingWindow.ShotEventIffFirst | backend/logic/predictions_logic.py:201-249 | a frame produces a shot event if and only if it shows a shot and none of the w frames before it does |
| SlidingWindow.ShotEventIs | backend/logic/predictions_logic.py:210-223 | such a shot names the holder in that frame, is undecided, and bears the time of that frame |
| SlidingWindow.OtherEventsAre | backend/logic/predictions_logic.py:210-249 | every other event, with its players and its time, in terms of the raw frames; a dribble appears exactly when a shot leaves the window while one player holds the ball |
| SlidingWindow.FramesInOrder | backend/logic/predictions_logic.py:277-304 | events come from strictly increasing frames and no frame with an event is missed |
| SlidingWindow.ShotsAreFarApart | backend/logic/predictions_logic.py:277-304 | two shot events of a run are at least w + 1 frames apart |
| SlidingWindow.RunStatistics | backend/logic/predictions_logic.py:251-304 | assists, turnovers and steals grow by exactly the matching events of the run; points never change |
| SlidingWindow.StatsGrowByEvents | backend/logic/predictions_logic.py:251-275 | over any list of events a player gains one assist, turnover or steal for each event of his, two points for each made shot, and nothing else |
| SlidingWindow.PossessionIsAccountedFor | backend/logic/predictions_logic.py:210-304 | for each player, passes, turnovers and steals, plus the changes hidden behind shot events, add up to the change of possession between the first window and the last frame |

## Left out

- Files, directories, fsync, compression, caches, checksumming of blocks and table files: a table is a sorted list of entries with its bounds, and CRC is an arbitrary function of bytes.
- Failures of storage during flush and compaction are not modelled. In `GroupCommit` the outcomes of log, sync and room are parameters.
- A memtable flush that runs inside a compaction already in progress (db_impl.cc:917-928): steps are atomic.
- Keys that do not parse, in the drop loop and in the iterator.
- User keys are real numbers in the engine: the comparator is an arbitrary total order, and any order on the finitely many keys of a database embeds in them.
- Which compaction to run: level scores, seek statistics and read sampling become parameters; file sizes and the points where outputs are cut are arbitrary.
- Repair, reuse of logs and manifests, recovery of the database directory beyond the manifest (the file CURRENT, old logs), and the waiting loop of MakeRoomForWrite.
- Manifests.Recover: the kinds of errors are not told apart, and the contents of the table files that it names are a parameter.
- LogFiles.Reader.ReadPhysicalRecord: reading from an initial offset is not modelled; every caller starts at 0.
- LogFiles.Reader.ReadRecord: nor is the resynchronisation that goes with an initial offset.
- VersionBuilder.Builder.SaveTo: an added file with the number and smallest key of a file of the base is excluded; the assertions of MaybeAddFile exclude it below level 0.
- VersionBuilder.SaveLevel: the same.
- Restart interval 0 and blocks larger than 4 GiB; corrupt blocks beyond the checks of the entry decoder.
- Memory ordering in the skip list: single loads and stores are sequentially consistent, and its random height is a parameter.
- Integers are unbounded except where wrap-around can be observed: sequence numbers and counts have their limits as preconditions, varints, Punycode deltas, zigzag and timer sums have their widths modelled.
- nanopb callbacks, extensions, pointer fields, struct offsets and release; a message type without fields is not given tag number 0.
- The splitting of a host name into labels (uv__idna_toascii), and the slow path of the UTF-8 decoder past the end of the input.
- Idna.ToAsciiLabel: a label longer than 2^31 bytes is excluded, as its counters are 32 bits wide.
- PbMerging.PartsAreMerged: for submessages without required fields and uncounted arrays; the decoder checks those anew with each part.
- PbStreams.FieldIter.Next: the data pointers and sizes that the iterator advances along with the field are not modelled.
- Thread pool start-up, fork handling and the final join; cancelling a request whose done callback has begun and submitting a live request are excluded, as they are for callers.
- Timers.TimerLoop.RunTimers: callbacks that start or stop timers are not modelled, and with the loop time at its maximum no due timer repeats; `Timers.TimerLoop.RunTurns` shows why.
- Null pointers passed to uv_inet_pton, and addresses with embedded NUL characters.
- Detection models, video, storage and network calls of the application; box coordinates are real numbers, so the distance test has no rounding.
- SlidingWindow.Detector.ProcessFrames: a window of size 0 (an index error) and a frame rate of 0 (a division error) are excluded.
