# Backup pipeline: a verified model

This project models the storage pipeline of BackupOS and proves what it promises: a backup
splits files into content-defined chunks, stores each chunk once under its digest, seals the
chunk list with a Merkle root, writes database rows only for digests the previous snapshot's
rows do not name, and later jobs prune, collect garbage, synthesize, verify and restore. The
difficulty is that three parts of the system look at three different things. Incremental
backups diff against the previous *rows*, the garbage collector asks only whether a *row*
survives, and a restore needs every digest of the *manifest*. The main theorems connect them.

| file | what it models |
|---|---|
| `Basics.dfy`, `Sorting.dfy` | byte strings, list operations, stable sorting, string order |
| `Cdc.dfy` | the chunker with its circular window and eviction table (`app/core/cdc.py`) |
| `Hashing.dfy` | SHA-256 as a parameter, with the hypotheses on it |
| `Merkle.dfy` | tree construction, pruned diff, verification (`app/core/merkle.py`) |
| `Cas.dfy` | the chunk store with raw and compressed files (`app/core/cas.py`) |
| `Records.dfy` | the database rows (`app/models/backup.py`) |
| `BackupWorker.dfy`, `RestoreWorker.dfy` | the two jobs (`app/workers/`) |
| `Pruner.dfy`, `Retention.dfy` | the retention job with GC, and who survives it |
| `Maintenance.dfy` | integrity check, synthetic fulls, locks |
| `Accounting.dfy`, `Invariants.dfy`, `Runs.dfy`, `Clock.dfy` | one backup, one state, all runs, runs with distinct times |
| `Journal.dfy` | what a run leaves on record about single snapshots: origin, checks, lock, tampering |
| `Limits.dfy` | runs that show why the hypotheses are needed |
| `Chain.dfy`, `Catalog.dfy`, `Browse.dfy`, `Analytics.dfy` | the derived views (`app/api/`) |

Methods and classes follow the source's loops and fields; each is proved against a function,
and the lemmas about that function carry the promises.

## Hypotheses

* The hash is a parameter (`Hashing.Hasher`): a digest for chunks, one for pairs of digests, one
  for nothing. Runs assume that the first two are injective (`Invariants.Assumptions`), the usual
  idealisation of collision resistance: no hash of fixed width meets it, and neither does any
  node hash that writes out its two digests in a fixed width. `Limits.AssumptionsCanHold` shows
  that all hypotheses are consistent.
* zstd frames start with the magic number (section 3.1.1 of RFC 8878) and decompress to their
  source. Entropy is an oracle that decides whether a chunk is compressed.
* A backup in a run is suitable (`Invariants.Suitable`). Its chunks stay readable: none is stored
  raw while starting with the zstd magic, which a compressed file normally does
  (`Limits.RawFrameRestoresWhen`). And no digest is a leaf in one of the two compared trees and an
  inner hash in the other, the exact condition for the diff (`Merkle.DiffExactWhen`), which the
  other hypotheses do not imply (`Limits.SuitabilityIsNeeded`) and a file of 128 hex digits can
  break (`Limits.SpelledChunkCollides`). `Runs.PlainRunIsValid` gives conditions on file contents
  alone.
* Nothing is assumed of the clock: it may stand still or go back. With equal creation times the
  database's answers decide which of several newest snapshots a pass keeps
  (`Retention.OutcomeDeterminedWhen`) and whether an increment goes before its parent
  (`Retention.TwinsDecide`). `Clock.dfy` has the sharper results for runs that give the snapshots
  of a source distinct times. Paths need not be distinct: `Invariants.Directory` lets the last
  file of a path win, as writing the files does.
* `Journal.Run` is a valid run written down with the worlds between its steps: every valid run can
  be (`Journal.ValidIsListed`), and nothing else can (`Journal.ListedIsValid`).
* Query results that the database leaves open (ties, row order) are arbitrary answers that fit
  the query, so the results hold for all of them.

## Where the code and its prose differ

* The repository's `README.md:301` promises that the old chain can be pruned after a synthetic full. The code
  writes no chunk rows for it, so the chunks go with the original (`Limits.SyntheticNeedsOriginal`).
* The docstring at `app/core/cdc.py:41` gives the window hash with reversed exponents; the last
  byte has weight one (`Cdc.Polynomial`).
* The repository's `README.md:201` says a missing chunk always changes the root. Repeating the last digest of an
  odd list does not (`Merkle.OddTailInvisible`); among lists of equal length the root does bind.
* `README.md:201` and `README.md:288` of the repository promise that a corrupted chunk is found. The root is computed from recorded
  digests, never from chunk bytes: a chunk whose bytes change in place passes every check and is restored with its new
  bytes (`Journal.RotRestored`, `Journal.RotPassesCheck`). Changed *records* are found (`Journal.TamperingFound`).
* The repository's `README.md:173` says a block can be checked by hashing its file. That holds only for blocks
  stored raw (`Cas.RehashWhen`).
* The integrity check skips snapshots without files and leaves them due. A hundred of them keep all
  older snapshots from being checked (`Maintenance.CrowdedOut`).
* The repository's `README.md:172` says that a repeated `store` reports zero bytes; the code reports the size on disk.
* `app/core/scheduler.py:262` swallows a foreign-key failure: the rows come back, the deleted
  chunk files do not (`Limits.StoppedPassReached`, `Limits.StoppedPassWhen`).
* The integrity check never reads the store: it passes for a snapshot that cannot be restored
  (`Limits.SyntheticNeedsOriginal`).
* `app/core/cas.py:9-10` promises raw bytes to every reader. A backed-up `.zst` file is stored raw and
  decompressed on the way back (`Limits.RawFrameRestoresWhen`).
* `app/api/analytics.py:128` sums the dedup column of a source as unique bytes; a synthetic full repeats the
  value of the snapshot it copies (`Runs.SourceColumn`).
* Restoring a snapshot of an empty source writes `snapshot_N.bin`, not an empty directory
  (`Invariants.EmptySourceRestoresBlob`).
* `app/api/browse.py:20` expects absolute paths, the worker records relative ones; such files are
  never listed (`Browse.RelativePathsInvisible`).
* `r_squared` is one whenever all x agree, however far the points are from the line
  (`Analytics.PerfectFitWhen`).

## Model

| member | source | states |
|---|---|---|
| Runs.EverySnapshotRestores | app/workers/restore_worker.py:96-104 | After any run of full and incremental backups of any sources, prune passes that complete or are stopped before they lose a chunk, safe deletions, synthetic fulls, checks and locks, under any clock, every worker-made snapshot with files restores to exactly the path-to-bytes map it was taken from, whole or one path at a time |
| Runs.RestoresExactlyWhen | app/workers/restore_worker.py:96-104 | After any run at all a snapshot with files, worker-made or synthetic, restores to exactly the files it stands for if and only if its whole manifest is on disk; whenever a restore succeeds it yields these files |
| Runs.RestoresWhileReferenced | app/core/scheduler.py:244-255 | In a run without a pass that was stopped after losing a chunk, arbitrary deletions included, it restores to exactly these files if and only if some row names each digest of its manifest |
| Runs.NothingLeaks | app/core/scheduler.py:232-255 | After any run, stopped passes included, some surviving row names every chunk in the store |
| Runs.NothingDanglesNothingLeaks | app/core/scheduler.py:232-255 | After any run without a pass that was stopped after losing a chunk, a digest is in the store if and only if some surviving row names it |
| Runs.StepExactWhen | app/core/scheduler.py:232-263 | A step keeps the store and the rows in agreement if and only if it is no prune pass that is stopped after deleting a chunk that a remaining row does not name |
| Runs.DedupConservation | app/workers/backup_worker.py:185-191 | Over any run the dedup sizes of all backups sum to the logical size of the store plus the raw bytes the collector removed |
| Runs.DedupColumn | app/api/backups.py:439-440 | Without deletions the dedup column over the whole database sums to the logical size of the store plus what synthetic fulls copied, so to the logical size if and only if every synthetic full copied zero |
| Runs.SourceColumn | app/api/analytics.py:128 | Without deletions the dedup column of one source sums to what its own backups made the store grow by plus what its synthetic fulls copied, so to that growth if and only if each of these copied zero |
| Runs.PlainRunIsValid | app/workers/backup_worker.py:159-179 | When no backed-up chunk is 128 hex digits or stored raw with the zstd magic, every backup of a run is suitable, so the results about runs apply from file contents alone |
| Runs.IntegrityAlwaysPasses | app/core/scheduler.py:303-322 | After any run every snapshot's root is the Merkle root of its manifests in order and no integrity check has failed |
| Runs.PassKeepsParents | app/models/backup.py:48 | With foreign keys enforced no pass, completed or stopped, removes the parent of a living increment |
| Runs.RunKeeps | app/workers/backup_worker.py:141-248 | The state invariant and byte conservation hold after every run |
| Runs.StepKeeps | app/workers/backup_worker.py:141-248 | Each kind of job, also a stopped prune pass, keeps the state invariant |
| Runs.StepConserves | app/core/scheduler.py:232-255 | Each kind of job keeps the byte balance between recorded, stored and collected bytes |
| Runs.OthersOnlyRemove | app/api/backups.py:418-461 | No job but a backup writes or changes a chunk file |
| Journal.ChecksOnRecord | app/core/scheduler.py:305-322 | At any point of any run a snapshot has a verification time and a verdict if and only if some check has listed it while it had files; they are the time of the last such check, and passed |
| Journal.NextCheck | app/core/scheduler.py:287-299 | At any point of any run a check lists a snapshot only if none has counted for it within seven days, and then does list it unless a hundred others that are no older are listed |
| Journal.LockOnRecord | app/api/snapshots.py:72-87 | At any point of any run a snapshot has the lock that was set last, none after an unlocking, and none if it was never locked |
| Journal.LockKeepsListed | app/core/scheduler.py:223-230 | From a lock until time t on, every prune pass that runs before t, completed or stopped and under any attachments, leaves the snapshot listed, until another step locks, unlocks or deletes it |
| Journal.LockShows | app/api/chain.py:108-119 | Meanwhile the chain view shows it as locked exactly before t, and then not as safe to delete |
| Journal.LockDecides | app/core/scheduler.py:219-230 | A completed pass at any point of a run keeps a snapshot if and only if the lock set last has not expired, or no attached policy expires it, or where one does it is that query's newest |
| Journal.MadeOnce | app/workers/backup_worker.py:200-210 | At any point of any run a snapshot has its number, creation time and source from the one backup or synthesis that made it; a full backup has no parent, an incremental one a newest snapshot of its source whenever there was one, a synthetic full neither parent nor rows |
| Journal.ColumnsOnRecord | app/api/backups.py:434-444 | At any point of any run the dedup size of a snapshot, worker-made or synthetic, is what some backup of the files it stands for made the store grow by; its other summary columns describe these files and its rows |
| Journal.TamperingFound | app/core/scheduler.py:315-322 | After any run, records replaced by others with as many digests, but not the same, fail the next check that lists the snapshot, and a whole restore of it never succeeds |
| Journal.TamperingFoundWhen | app/core/scheduler.py:315-322 | Without node values among the digests, any replaced records fail the check if and only if the two padded digest lists differ |
| Journal.RotUnnoticed | app/workers/restore_worker.py:128-149 | After any run, with any other chunk store, a snapshot with files restores as a whole if and only if each of its digests can be read, and writes whatever bytes come back |
| Journal.RotPassesCheck | app/core/scheduler.py:305-322 | The integrity check passes it all the same |
| Journal.RotRestored | app/workers/restore_worker.py:128-149 | After any run, when the bytes of one chunk change in place, a whole restore that succeeded before succeeds again and writes something else for every file with the chunk |
| Invariants.BackupKeeps | app/workers/backup_worker.py:112-248 | A full or incremental backup keeps numbering, faithful chunks, manifests, coverage and the absence of leaks, and exact accounting where it held, whatever the previous-snapshot query answers |
| Invariants.DropKeeps | app/core/scheduler.py:240-255 | Removing any set of snapshots with garbage collection keeps the invariant and exact accounting |
| Invariants.PruneKeeps | app/core/scheduler.py:188-263 | A prune pass, completed or stopped, keeps the invariant |
| Invariants.PruneExactWhen | app/core/scheduler.py:240-263 | A prune pass keeps exact accounting if and only if it is not stopped or every chunk of the snapshots it deletes before is named by another snapshot, judged from the state before the pass and the query answers |
| Invariants.PlainContentIsSuitable | app/workers/backup_worker.py:159-179 | When no chunk of the backup or of the snapshot before is 128 hex digits, no digest hides in the other tree |
| Invariants.SynthesisKeeps | app/api/backups.py:395-461 | A synthetic full keeps the invariant and exact accounting |
| Invariants.IntegrityPasses | app/core/scheduler.py:305-322 | In a state with the invariant a check of any snapshots changes only verification columns and fails none |
| Invariants.RestoresExactly | app/workers/restore_worker.py:79-155 | In an exact state with the invariant a worker-made snapshot whose parent is not missing restores exactly; an unknown path is reported as not in the snapshot |
| Invariants.RestoresWhen | app/workers/restore_worker.py:96-104 | A snapshot with files, synthetic ones included, restores to exactly the files it stands for if and only if its whole manifest is on disk, and to nothing else |
| Invariants.SyntheticRestoresSame | app/api/backups.py:405-454 | At the moment of synthesis the synthetic full has the same root and the same restore result as the snapshot it copies |
| Invariants.EmptySourceRestoresBlob | app/workers/restore_worker.py:105-117 | A snapshot without files restores to one empty blob file, never to the empty directory |
| Invariants.DirectoryOfDistinct | app/workers/restore_worker.py:97-104 | For distinct paths the restored directory holds exactly one entry per file, with its bytes |
| Limits.IncrementNeedsParent | app/core/scheduler.py:219-255 | Without foreign keys, for all files with content and any retention: a full backup, an unchanged increment and a prune pass after the retention leave the increment listed and unrestorable |
| Limits.SyntheticNeedsOriginal | app/api/backups.py:434-454 | With foreign keys, for all files with content and any retention: a full backup, a synthetic full, a prune pass after the retention and an integrity check leave the synthetic full listed, checked as passed, and unrestorable |
| Limits.StoppedPassWhen | app/core/scheduler.py:240-263 | A stopped pass changes nothing if and only if every chunk of the snapshots it deleted is named by another snapshot; otherwise some snapshot is back in the database and fails to restore |
| Limits.StoppedPassReached | app/core/scheduler.py:240-263 | With foreign keys, for all file lists a, b, c: a run of three full backups, a restore job for the second and a pass ends with the first snapshot listed, and it restores if and only if the chunks of a are among those of b and c |
| Limits.CollidingChunkBreaksCoverage | app/core/merkle.py:107-108 | After a full backup of two small files, an increment whose only file has the digest of the node above the two stores its chunk, lists it in the manifest and writes no row for it, for every hash |
| Limits.SuitabilityIsNeeded | app/core/merkle.py:107-108 | This happens at a hash that meets all other hypotheses of the runs |
| Limits.SpelledChunkCollides | app/core/merkle.py:34-36 | Whatever the byte hash, a file that spells two digests in hex is such a file |
| Limits.RawFrameRestoresWhen | app/core/cas.py:81-110 | For every small file that is stored raw and starts with the zstd magic, a full backup into an empty system restores exactly if and only if the library is there and the file is a frame of itself |
| Limits.AssumptionsCanHold | app/core/cas.py:67-95 | Some hash and codec satisfy all hypotheses together |
| Accounting.RowsAreNewDigests | app/workers/backup_worker.py:159-179 | Unless a digest hides in the other tree, the rows of a backup name exactly the manifest's digests that the previous snapshot's rows do not, in whatever order those are read |
| Accounting.RowsInOrder | app/workers/backup_worker.py:229-246 | As a list, the rows of a backup follow the manifest, repeats included, and leave out what the previous rows name |
| Accounting.EmptyRootWhen | app/core/merkle.py:70-74 | A backup has the hash of the empty string as its root if and only if its files hold no bytes |
| Accounting.BackupMetrics | app/workers/backup_worker.py:181-246 | Total size is the sum of the file sizes, dedup size is at most that, the counts count manifest digests and distinct row digests, and each row gives the raw size, the on-disk size and the entropy of a chunk of this backup |
| Accounting.NewBytesConserved | app/workers/backup_worker.py:141-191 | The dedup size is exactly the growth of the store's logical size, a repeat within the backup counting once |
| Accounting.NewBytesBounded | app/workers/backup_worker.py:185-191 | The dedup size is at most the total of all chunk lengths |
| Accounting.StoreAllKeys | app/workers/backup_worker.py:147-154 | The store loop adds exactly the digests of the chunks and changes no existing file |
| Accounting.StoreAllFaithful | app/workers/backup_worker.py:147-154 | After the store loop every file on disk decodes to content with its name as digest |
| Accounting.ManifestHashes | app/workers/backup_worker.py:214-227 | The file manifests concatenated in order are the flat digest list behind the root |
| BackupWorker.CollectFiles | app/workers/backup_worker.py:112-131 | The flat chunk list is the concatenation of each file's chunks, and the manifest pairs each file with its own |
| BackupWorker.StoreChunks | app/workers/backup_worker.py:141-154 | The parallel lists give digest, length, on-disk size and entropy of each chunk, the new flags select exactly the chunks absent at their turn, and the store gains them all |
| BackupWorker.FindNewHashes | app/workers/backup_worker.py:161-179 | An incremental job diffs against the rows of a latest snapshot, read in any order; a full job or a first one takes every digest |
| BackupWorker.SliceManifest | app/workers/backup_worker.py:214-227 | Slicing the flat list by a running offset gives every file exactly the digests of its own chunks |
| BackupWorker.TakeHashes | app/workers/backup_worker.py:217-220 | One file takes the next slice of the flat list and advances the offset past it |
| BackupWorker.WriteRows | app/workers/backup_worker.py:229-246 | Rows are written in chunk order for exactly the wanted digests, with their sizes |
| BackupWorker.RunBackup | app/workers/backup_worker.py:108-248 | The job's whole effect on chunk store and database, for the query answers it reports |
| Cdc.CDCChunker.constructor | app/core/cdc.py:25-35 | Every eviction table entry is its byte times POLY^48 modulo 2^64 |
| Cdc.CDCChunker.RollingHash | app/core/cdc.py:37-53 | The seed is the polynomial hash of the first 48 bytes, or of what is left, with the window padded by zeros |
| Cdc.CDCChunker.Roll | app/core/cdc.py:89-93 | One table-driven update moves hash and circular buffer to the last 48 bytes before the next position |
| Cdc.CDCChunker.FastForward | app/core/cdc.py:73-85 | After the fast-forward hash and buffer describe the 48 bytes before the minimum size |
| Cdc.CDCChunker.Scan | app/core/cdc.py:87-100 | The scan stops at the first boundary after the minimum size, or at the end |
| Cdc.CDCChunker.FindCut | app/core/cdc.py:67-100 | A chunk ends where the naive definition on the remaining bytes says |
| Cdc.CDCChunker.ChunkData | app/core/cdc.py:55-104 | The incremental chunker returns the naive chunk list of the data |
| Cdc.WindowSlide | app/core/cdc.py:82 | Subtracting the table entry and adding the new byte gives the hash of the shifted window modulo 2^64 |
| Cdc.HashSlide | app/core/cdc.py:91 | The same at every position of the data |
| Cdc.CutRule | app/core/cdc.py:17-23 | In numbers: a position is the cut if and only if it is the first past 512 bytes where the last 48 bytes, read in base 0x3DA3358B4DC173 modulo 2^64, have their low 13 bits zero, or 8192 bytes are reached, or the data end |
| Cdc.CutIsFirstBoundary | app/core/cdc.py:87-100 | The scan stops at the first boundary past the minimum size, and no other position is that boundary |
| Cdc.ChunksPartition | app/core/cdc.py:55-104 | The chunks concatenate to the data, each is non-empty and at most 8192 bytes, all but the last have at least 513 |
| Cdc.ChunkCount | app/core/cdc.py:55-104 | With k chunks of n > 0 bytes, (k-1)*513 < n <= k*8192 |
| Cdc.CutLocal | app/core/cdc.py:67-100 | A non-final cut depends only on the bytes inside the chunk |
| Cdc.ChunksAfterCut | app/core/cdc.py:67-102 | The chunks after any cut are the chunks of the remaining suffix |
| Cdc.Resynchronise | app/core/cdc.py:67-102 | Inputs that share a suffix starting at a cut in both have the same chunks from there on |
| Cdc.AppendKeepsChunks | app/core/cdc.py:67-102 | Appending data keeps every chunk except possibly the last |
| Cdc.ChunksInjective | app/core/cdc.py:55-104 | Chunk lists are equal if and only if the data are |
| Hashing.SpelledDigestsCollide | app/core/merkle.py:34-36 | For every byte hash, a chunk that spells two digests in hex has the digest of the node above them |
| Hashing.FreeHasherIsCollisionFree | app/core/merkle.py:34-36 | A hasher with all assumed properties exists |
| Merkle.BuildTree | app/core/merkle.py:38-64 | The layer loop builds the specified tree |
| Merkle.NextLayer | app/core/merkle.py:49-62 | One round pairs neighbours, the last of an odd layer with itself |
| Merkle.Verify | app/core/merkle.py:133-140 | Accepts exactly when the rebuilt root is the expected one |
| Merkle.BuildShape | app/core/merkle.py:38-64 | The tree is perfect and correctly hashed, its leaves are the padded list, which starts with the input and is less than twice as long |
| Merkle.EqualHashEqualTree | app/core/merkle.py:34-36 | Without leaf digests that are node values, subtrees with equal hashes are equal, even of different heights |
| Merkle.RootCharacterisation | app/core/merkle.py:38-74 | Two non-empty lists have equal roots if and only if their padded lists are equal |
| Merkle.RootBindsList | app/core/merkle.py:133-140 | For lists of equal length, node values allowed, equal roots mean equal lists |
| Merkle.OddTailInvisible | app/core/merkle.py:50-52 | Repeating the last digest of an odd list longer than one keeps the root |
| Merkle.PaddedElements | app/core/merkle.py:50-52 | Padding adds no digest that was not there |
| Merkle.CollectNodeHashes | app/core/merkle.py:80-91 | The stack walk collects exactly the hashes of all nodes, and ends |
| Merkle.CollectNewChunks | app/core/merkle.py:93-113 | The recursion appends the leaves of the unpruned subtrees in order |
| Merkle.DiffTrees | app/core/merkle.py:115-127 | The two walks together compute the specified diff |
| Merkle.DiffSound | app/core/merkle.py:115-127 | Whatever the hash does, diff reports only digests of the new list that the old one lacks |
| Merkle.NewChunksExact | app/core/merkle.py:105-113 | The pruned walk returns what a full scan returns, order and repeats included, if and only if no pruned subtree holds a new digest |
| Merkle.MaskedWhen | app/core/merkle.py:105-113 | With an injective node hash that happens if and only if a new leaf digest is an old inner hash or a new inner hash is an old leaf digest |
| Merkle.DiffExactWhen | app/core/merkle.py:115-127 | The same exact condition for the diff of two lists |
| Merkle.DiffOfUnmasked | app/core/merkle.py:115-127 | Under that condition new.diff(old) is, as a set, leaves(new) minus leaves(old), for all lengths and with repeats |
| Merkle.DiffIsSetDifference | app/core/merkle.py:115-127 | The same for all lists whose digests are not inner-node values |
| Merkle.DiffMissesNodeValue | app/core/merkle.py:107-108 | A new digest equal to the old root is missing from the old list and not reported |
| Cas.CASStore.Store | app/core/cas.py:50-95 | Digest of the original bytes, is_new exactly when absent, the payload written once, and the size on disk reported also for a repeat |
| Cas.CASStore.Retrieve | app/core/cas.py:97-110 | Decodes a file by its first four bytes, with the errors for a missing chunk, a missing library and a bad frame |
| Cas.CASStore.Exists | app/core/cas.py:112-114 | True exactly for stored digests |
| Cas.CASStore.Delete | app/core/cas.py:116-131 | Removes exactly this file and says whether it was there |
| Cas.RehashWhen | app/core/cas.py:81-86 | A chunk file's name is the hash of its bytes if and only if the chunk is stored raw or is its own frame |
| Cas.ReadWithoutLibrary | app/core/cas.py:103-110 | A process without the zstd library reads exactly the chunks that were stored raw, with entropy at least 7.2, and do not start with the magic |
| Cas.StoreThenFetch | app/core/cas.py:81-110 | A newly stored chunk comes back unchanged if and only if it is compressed, or does not start with the magic, or is a frame of itself |
| Cas.DiskRefinesMap | app/core/cas.py:50-131 | Over any sequence of store, retrieve, exists and delete the mixed store answers like a map from digest to original bytes |
| Cas.StepRepresents | app/core/cas.py:50-131 | Each operation keeps the correspondence with that map |
| Cas.StoreTwice | app/core/cas.py:70-71 | A repeated store changes nothing, whatever its entropy argument |
| Cas.FetchByContent | app/core/cas.py:97-110 | In a faithful store the digest of some bytes fetches exactly these bytes |
| Pruner.PruneExpiredSnapshots | app/core/scheduler.py:171-263 | The job deletes per attachment the expired, unlocked snapshots other than the newest, oldest first, with GC; a foreign-key failure rolls back the rows and leaves the chunks deleted |
| Pruner.QueryExpired | app/core/scheduler.py:209-217 | Exactly the source's snapshots before the cutoff, each once, oldest first |
| Pruner.CollectGarbage | app/core/scheduler.py:244-255 | Removes exactly the listed chunks that no surviving row of any source names |
| Pruner.DeleteSnapshot | app/core/scheduler.py:232-255 | Rows of the snapshot go, and with them exactly the chunks only they named |
| Pruner.DeleteUnlessBlocked | app/core/scheduler.py:240-242 | With enforced foreign keys a snapshot that a child or a restore job names is not deleted and nothing changes |
| Pruner.DropUnion | app/core/scheduler.py:219-255 | Deleting snapshots with GC in any order or grouping gives the same state |
| Pruner.PassReaches | app/core/scheduler.py:196-263 | Any pass ends with all attempted deletions before the first that is still blocked, deleted together with GC, and completes if and only if there is none |
| Pruner.ReachIsFirst | app/core/scheduler.py:240-242 | That is the first attempted snapshot which a restore job or a snapshot not deleted before it names, judged from the state before the pass and the query answers |
| Retention.PassRemoves | app/core/scheduler.py:196-257 | A completed pass over several attachments removes exactly the snapshots that some attachment selects: expired for it, unlocked, and not its query's newest |
| Retention.Survivors | app/core/scheduler.py:196-257 | Under any creation times, a snapshot survives if and only if it is locked past now, or for every attached policy not older than the cutoff or the answer for the newest, which is one of the newest before the pass |
| Retention.SettledSurvivors | app/core/scheduler.py:196-257 | Unless an expired, unlocked snapshot ties for the newest, the survivors are exactly the newest, the locked and those not older than every attached cutoff |
| Retention.OutcomeDeterminedWhen | app/core/scheduler.py:200-207 | Without foreign keys the outcome of a pass depends on the attachments alone if and only if there is no such tie |
| Retention.AttachmentOrderIrrelevant | app/core/scheduler.py:188-197 | Without such ties passes over the same attachments in any order all complete or are all stopped, and end in the same state when they complete; under foreign keys also without an unlocked increment as old as its parent |
| Retention.SourceNeverEmptied | app/core/scheduler.py:200-221 | Whatever the queries answer among ties and whether or not the pass completes, a source with a snapshot keeps one of its newest |
| Retention.PassCompletesWhen | app/models/backup.py:48 | Under any clock, a pass under foreign keys completes if no removable snapshot is protected: named by a restore job, by a locked increment or by one that is not older; and, unless an unlocked increment is as old as its parent, only then |
| Retention.TwinsDecide | app/core/scheduler.py:215-242 | When an increment is as old as its parent, the row order of the database can decide whether the pass completes |
| Retention.EveryChildProtects | app/models/backup.py:48 | Where increments are newer than their parents, every increment protects its parent |
| Retention.PassStopsAt | app/core/scheduler.py:219-242 | With distinct creation times, in any order along the chain, a pass under foreign keys stops at the oldest protected snapshot of the first attachment that meets one, having deleted all that earlier attachments remove and what is older there |
| Retention.FirstProtectedExists | app/core/scheduler.py:219-242 | If some removable snapshot is protected, some attachment meets one first |
| Clock.PassInSteadyRuns | app/core/scheduler.py:196-257 | In every state reached by a run that gives the snapshots of a source distinct times, the completion condition and the survivors of a pass are exactly these |
| Clock.StoppedPassInSteadyRuns | app/core/scheduler.py:240-263 | In such states a stopped pass has deleted exactly that set, and keeps exact accounting if and only if every chunk of the set is named by another snapshot |
| Maintenance.CheckRecords | app/core/scheduler.py:305-322 | In any state a listed snapshot with files is recorded as failed if and only if its root is not the root of its manifests, with the time of the check; nothing else changes |
| Maintenance.ResealedFailsCheck | app/core/scheduler.py:315-322 | In any state a snapshot whose root was computed from another digest list of equal length fails the check |
| Maintenance.ListsDue | app/core/scheduler.py:291-299 | A check lists all snapshots never verified or not for more than seven days, or a hundred of them |
| Maintenance.CrowdedOut | app/core/scheduler.py:312-313 | A hundred never verified snapshots without files keep every older snapshot out of this check, and stay as they are for the next |
| Maintenance.SynthesizeFullBackup | app/api/backups.py:395-461 | A new parentless snapshot with the latest snapshot's manifests and no rows, or the error for no snapshot or no files with nothing changed |
| Maintenance.VerifySnapshotIntegrity | app/core/scheduler.py:271-337 | Checks at most a hundred of the newest due snapshots, skips those without files, records time and outcome |
| Maintenance.LockSnapshot | app/api/snapshots.py:72-74 | Sets the expiry of one snapshot and nothing else |
| Maintenance.UnlockSnapshot | app/api/snapshots.py:86-88 | Clears the expiry of one snapshot and nothing else |
| RestoreWorker.RunRestore | app/workers/restore_worker.py:65-172 | The specified outcome; the last status is completed if and only if it is a success, else failed, and verifying comes before it if and only if every chunk asked for was read |
| RestoreWorker.RestoreOutcome | app/workers/restore_worker.py:72-149 | In any state: unknown snapshot, unknown path, the first unreadable chunk, a wrong root of a whole restore, or success, each with its exact condition; success has written, under exactly the paths asked for, the chunks of the last record of each |
| RestoreWorker.WholeRestoreWhen | app/workers/restore_worker.py:128-149 | In any state a whole restore succeeds if and only if every chunk is readable and the digests have the stored root, and reports a root mismatch if and only if only the root is wrong |
| RestoreWorker.ResealedNeverRestores | app/workers/restore_worker.py:128-149 | In any state a snapshot sealed over one digest list that now records another of equal length is never restored as a whole |
| RestoreWorker.BlobNamed | app/workers/restore_worker.py:112 | The blob of a snapshot without records is named after its number in decimal, without leading zeros |
| RestoreWorker.WriteRecords | app/workers/restore_worker.py:96-104 | Each record's chunks are concatenated to its path, a later record of the same path wins, and the digests restored are the records' in order |
| RestoreWorker.WriteChunks | app/workers/restore_worker.py:101-103 | The bytes written are the concatenation of the fetched chunks, or the first error |
| Chain.BuildChain | app/api/chain.py:75-137 | One node per snapshot, oldest first: children in ascending order, lock state, depth, and safe exactly when unlocked and no listed snapshot names it as parent |
| Chain.BuildChildren | app/api/chain.py:85-90 | Every snapshot's list holds exactly the listed snapshots that name it as parent, in list order |
| Chain.OneChildList | app/api/chain.py:88-90 | A snapshot is in the child list of its parent and in no other, and in some list if and only if its parent is listed |
| Chain.WalkQueue | app/api/chain.py:92-100 | The queue loop ends for every parent relation, cycles and missing parents included, and everything ever queued is distinct and finished at the end |
| Chain.Turn | app/api/chain.py:96-100 | One turn of the loop keeps that exactly the roots and the children of finished nodes were queued, none twice |
| Chain.ComputeDepths | app/api/chain.py:92-104 | Depth is the length of the path to a parentless snapshot, and zero for snapshots with no such path |
| Chain.DepthUnique | app/api/chain.py:92-100 | There is at most one such length |
| Chain.FlagIsSafe | app/api/chain.py:117-119 | In a database where parents belong to the child's source, the per-source flag marks exactly the unlocked snapshots without a living increment in the whole database |
| Chain.FlagIsSafeInRuns | app/api/chain.py:117-119 | In every reachable state the flag is exactly the condition under which the restore theorem allows the deletion |
| Catalog.FileVersionHistory | app/api/catalog.py:142-164 | The oldest-to-newest walk with remembered digests, reversed, lists per snapshot newest first the version and whether the next older listed snapshot has other digests or lacks the file |
| Catalog.VersionsExactly | app/api/catalog.py:146-164 | A version is listed if and only if some listed snapshot holds the path and the version describes it |
| Catalog.VersionsInOrder | app/api/catalog.py:155-164 | The versions follow the order of the snapshots, those without the path dropped |
| Catalog.NeighboursConsecutive | app/api/catalog.py:121-128 | No snapshot of the source lies between two neighbours of the limited newest-first list |
| Catalog.HistoryTellsChanges | app/api/catalog.py:142-164 | In every reachable state, for any list of snapshots, synthetic ones included, the history lists exactly the snapshots that stand for the path, with true sizes, and a version is unchanged if and only if the next older listed snapshot stands for the same bytes; a gap resets it to changed |
| Catalog.DigestsTellBytes | app/api/catalog.py:152 | Digest lists of two files are equal if and only if the bytes are |
| Browse.BuildListing | app/api/browse.py:64-117 | The scan with its counters and two sorted lists returns the specified listing, for any records and any path |
| Browse.DirectoriesListed | app/api/browse.py:78-114 | For any records and any path, a name is listed as a directory if and only if it has no slash and some file is recorded in or below it, with the number of these files |
| Browse.FilesListed | app/api/browse.py:78-99 | A file entry is listed if and only if it describes a recorded file directly in the directory, with its name, size, chunk count and path |
| Browse.ListingOrder | app/api/browse.py:104-117 | Directories first, each once, by name; then the files by name |
| Sorting.StringOrder | app/api/browse.py:113-116 | Names compare by their first difference, a prefix before the longer name |
| Browse.WalkMeetsEveryFile | app/api/browse.py:64-117 | For absolute paths without empty components, descending through directory entries from the root ends and meets every recorded file exactly as often as it is recorded |
| Browse.ChildCountIsWalk | app/api/browse.py:100-112 | The child count of a directory entry is the number of files met by descending from it |
| Browse.NormaliseStrips | app/api/browse.py:58-61 | Normalising takes all slashes off both ends of any path and puts one before the rest |
| Browse.NormaliseClean | app/api/browse.py:58-61 | Normalising keeps clean paths and the root |
| Browse.EmptyComponentLoops | app/api/browse.py:88-112 | A directory lists itself as a subdirectory if and only if some recorded path has an empty component right below it |
| Browse.RelativePathsInvisible | app/api/browse.py:78-82 | Paths recorded without a leading slash, as the worker records them, are in no listing |
| Analytics.LeastSquares | app/api/analytics.py:59-75 | For all lists of equal length the returned line has the smallest sum of squared residuals of all lines |
| Analytics.LeastSquaresUnique | app/api/analytics.py:70-71 | Unless all x agree no other line reaches it |
| Analytics.FlatWhen | app/api/analytics.py:68-69 | The equal-x branch is taken if and only if all x agree |
| Analytics.VariationSplits | app/api/analytics.py:67-73 | ss_tot is ss_res plus slope squared times ss_xx |
| Analytics.RSquaredExplains | app/api/analytics.py:72-74 | Unless all x agree, r_squared times ss_tot is slope squared times ss_xx |
| Analytics.FlatFit | app/api/analytics.py:68-69 | When all x agree the fit is the constant at the mean |
| Analytics.FewPoints | app/api/analytics.py:62-63 | With fewer than two points the fit is the constant through the only one, or zero, with r_squared zero |
| Analytics.RSquaredInUnit | app/api/analytics.py:62-75 | r_squared lies between zero and one |
| Analytics.PerfectFitWhen | app/api/analytics.py:68-74 | r_squared is one if and only if the line passes through every point or all x agree |

## Left out

- Runs.EverySnapshotRestores: excludes snapshots of empty sources, unsuitable backups (raw chunks with the zstd magic, digests that hide in the other tree) and runs in which a stopped pass loses a chunk, because there the property is false (`Invariants.EmptySourceRestoresBlob`, `Limits.RawFrameRestoresWhen`, `Limits.SuitabilityIsNeeded`, `Limits.StoppedPassReached`).
- Analytics.LeastSquares: over the reals, without floating-point rounding; the projections computed from the fit are not modelled.
- Half-finished jobs, Celery retries and concurrent jobs: each job is one step; the code takes no lock between chunk writes and garbage collection.
- Job rows, audit log, WebSocket and webhook messages, HTTP routing, authentication, tenants: plumbing around the modelled state.
- SHA-256 and zstd internals: parameters with the hypotheses above.
- Shannon entropy, average entropy, anomaly detection, alerts: entropy is an oracle, and nothing modelled reads the averages.
- Temporary files, renames, shard directories, `total_size` and `stats` of the store: a file is present with its payload or absent.
- Walking the source tree: a backup gets the readable files in walk order; unreadable and missing paths are filtered out before.
- Source and tenant deletion: they remove rows without garbage collection, so exact accounting does not survive them.
- Compliance scores, rate limits, policy parsing and scheduling, restore estimates, change rates, catalogue search: flat branches or library behaviour.
- Two records of one path in one snapshot: the history and a restore use the last one in row order; the history query leaves that order open.
- Time zones: times are integers, retention and lock durations are in the same unit.
