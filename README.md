# BufMgr: a verified model of a clock-replacement buffer pool

This project models the buffer pool manager `BufMgr` of buf.C in Dafny. It also proves the
facts its callers rely on.

The manager owns:
- a fixed table of frame descriptors (`bufTable`);
- a parallel pool of pages (`bufPool`);
- a hash index from (file, page number) to frame;
- a clock hand;
- access statistics.

Its operations are:
- the constructor;
- `allocBuf`, the clock replacement;
- `readPage`, `unPinPage`, `allocPage`, `disposePage` and `flushFile`;
- the write-back loop of the destructor.

Layout, one module per file:

- `status.dfy` (`Errors`): the status codes.
- `frames.dfy` (`Frames`):
  - the descriptor (`BufDesc`, with `Clear` and `Set`);
  - the pool invariant that ties the table to the hash index;
  - lemmas showing that each kind of table update keeps the invariant.
- `clock.dfy` (`Clock`):
  - `Sweep`, a pure function that states what `allocBuf`'s loop does;
  - its properties: exhaustion exactly when every frame is pinned, the hand back where it started, every reference bit cleared, a pinned frame never chosen.
- `flush.dfy` (`Flush`): `flushFile`'s effect after a prefix of the frames, stated as three folds over the frames:
  - `FlushPrefix` for the table;
  - `DropEntries` for the index;
  - `WrittenBack` for the files.

  It also holds their properties.
- `disk.dfy` (`Disk`): the file layer as a `FileStore` object.
  - It maps each existing page to its contents.
  - Its operations may fail nondeterministically.
- `bufmgr.dfy` (`Buffer`): the class `BufMgr`. The table and the pool are arrays, and the index is a `map` field.
  - `Valid()` covers the sizes, the hand's range and the pool invariant. The constructor establishes it, and every public operation requires and keeps it.
  - `FlushFrames` and `FlushFrame`, the loop of `flushFile` and its body, neither require nor ensure `Valid()`. They state their new state through the folds of `Flush`. `FlushFile` then derives the invariant from those folds with `Flush.FlushPreserves`.
  - `FlushAll` may change only the pages of the files (its `modifies` clause), so the table, the index and `Valid()` are as they were before it.
  - Every method that changes state states each field it may change as a function of the old state. The exception is `FlushAll`, whose files are stated only up to which writes succeeded (see "Left out").
  - What `allocBuf` does to its victim is given by four functions: `Vacate` for the table, `Unindex` for the index, `WriteBack` for the files and `CountWrite` for the statistics. The contracts of `AllocBuf`, `ReadPage` and `AllocPage` are stated with them.

The pool invariant (`Frames.PoolInvariant`) has three parts:
- every descriptor has its own frame number and a pin count of at least 0;
- an invalid frame is unpinned, clean and names no file;
- a frame is valid exactly when the index maps its page to it, and every index entry points at a valid frame that holds that page.

Some helper methods are not separate functions in buf.C. Each is a piece of one source function, cut out so that each proof stays small, and the behaviour is unchanged:
- `RunClock` and `ReplaceVictim` are the loop and the eviction of `allocBuf`;
- `ReadIn` and `LoadPage` are the miss path of `readPage` and its part after `allocBuf`;
- `BufferNewPage` is the second half of `allocPage`, and `Refuse` is its rollback when the index refuses the page;
- `Install` is the index insertion plus `Set`, shared by `readPage` and `allocPage`;
- `FlushFrames` and `FlushFrame` are the loop of `flushFile` and its body.

In three places the code behaves differently from what one might expect; the model follows the code:
- `flushFile` is not all-or-nothing. It stops at the first pinned page of the file, at the first stale frame naming the file, or at the first failed write. The frames it has already passed stay flushed and invalidated. `FlushFile` returns the frame where it stopped as the ghost out-parameter `stop`.
- `disposePage` clears a resident frame without looking at its pin count. It forwards to the file's `disposePage` even when the page is not resident.
- `BADBUFFER` requires an invalid frame that still names the file. Under the pool invariant an invalid frame names no file. So `flushFile` can return `BADBUFFER` only when it is called with a null file (`FlushFile` ensures `file != Null ==> st != BadBuffer`).

## Model

| member | source | states |
|---|---|---|
| Frames.ResidentUnique | buf.C:111-112 | two valid frames never hold the same page, so the index identifies a page's frame uniquely |
| Frames.InvalidUnhashed | buf.C:78-83 | an invalid frame has no entry in the hash index |
| Frames.InitialInvariant | buf.C:26-40 | the constructor's all-invalid table with an empty index satisfies the pool invariant |
| Frames.EvictPreserves | buf.C:110-112 | clearing a valid frame and removing its page's entry keeps the pool invariant |
| Frames.InstallPreserves | buf.C:136-139 | `Set` on an invalid frame plus an entry for a page not yet indexed keeps the pool invariant |
| Frames.RetagPreserves | buf.C:170-173 | changing a frame's pin count, reference bit or dirty bit without changing its page or validity keeps the pool invariant |
| Clock.Advance | buf.C:75 | `advanceClock` moves the hand to the next frame and wraps from the last frame to frame 0 |
| Clock.Rot | buf.C:73-75 | k advances keep the hand in range |
| Clock.Dist | buf.C:73-75 | the number of advances from the hand to frame j lies between 1 and n, and is 1 exactly for the next frame |
| Clock.Sweep | buf.C:73-116 | the loop as a function: the table keeps its size, the hand stays in range, and a found frame is in range |
| Clock.SweepOnlyClearsRefbits | buf.C:86-91 | the sweep changes a descriptor only by clearing its reference bit |
| Clock.SweepChoosesUnpinned | buf.C:78-98 | the chosen frame is invalid, or valid with pin count 0 and reference bit clear; its validity and pin count are those it had at the call |
| Clock.AllPinnedExhausts | buf.C:94-98 | when every frame is valid and pinned, the sweep finds nothing |
| Clock.EligibleIsFound | buf.C:73-99 | a frame that is not pinned is reached within two sweeps, so the sweep finds some frame |
| Clock.SweepFailsIffAllPinned | buf.C:73-116 | the sweep fails exactly when every frame is valid with a positive pin count |
| Clock.ExhaustedHand | buf.C:73-75 | a sweep that fails has advanced the hand exactly 2·n times |
| Clock.RotAdd | buf.C:75 | a+b advances are a advances followed by b |
| Clock.RotNoWrap | buf.C:75 | advancing without reaching the end adds to the hand |
| Clock.FullCircle | buf.C:75 | n advances bring the hand back where it started |
| Clock.ExhaustedClearsRefbit | buf.C:86-91 | after a sweep that fails, a given frame's reference bit is clear |
| Clock.SweepExhausted | buf.C:73-116 | on exhaustion every frame is pinned, the hand is back where it began and every reference bit is clear |
| Flush.FlushPrefix | buf.C:234-262 | the table after the first k frames of the flush has the same size |
| Flush.FlushPrefixAt | buf.C:234-262 | after k frames, each frame below k is flushed (a page of the file is cleaned and invalidated) and the others are untouched |
| Flush.FlushPreserves | buf.C:250-257 | flushing unpinned pages of the file and dropping their entries keeps the pool invariant |
| Flush.DropEntriesAt | buf.C:253 | after k frames the index has lost exactly the entries of the file that point below k |
| Flush.FlushedFileGone | buf.C:234-264 | after all frames no frame holds a page of the file, and the index has lost exactly the file's entries |
| Flush.WrittenBackAt | buf.C:241-251 | after k frames each dirty page of the file met holds its frame's contents, the file gained only those pages, and every other page is unchanged |
| Flush.FlushComplete | buf.C:234-264 | a complete flush leaves no page of the file resident, drops exactly its entries and has written every dirty page of it |
| Disk.FileStore.ReadPage | buf.C:133 | a successful read returns the page's contents; reading a page that does not exist fails with BADPAGENO |
| Disk.FileStore.WritePage | buf.C:103 | a successful write replaces the page's contents; a failed one changes nothing |
| Disk.FileStore.AllocatePage | buf.C:182 | a successful allocation adds a page the file did not hold before |
| Disk.FileStore.DisposePage | buf.C:189 | a successful disposal removes the page; a failed one changes nothing; either way the request is appended to the ghost log `disposals` |
| Buffer.BufMgr.constructor | buf.C:22-41 | every frame starts invalid with its own frame number; the index is empty, the hand is on frame numBufs-1, the statistics are zero, and the invariant holds |
| Buffer.BufMgr.AllocBuf | buf.C:66-117 | the hand ends where `Sweep` says; BUFFEREXCEEDED exactly when every frame was pinned, with the hand back and every bit clear; on OK the frame is the hand, invalid and unindexed, a valid victim was unpinned, written back when dirty (diskwrites+1), unhashed and cleared; UNIXERR leaves it valid, dirty and indexed; the invariant is kept |
| Buffer.BufMgr.RunClock | buf.C:73-99 | the loop ends in exactly the state `Sweep` describes (hand, table, found or not) and keeps the invariant |
| Buffer.BufMgr.ReplaceVictim | buf.C:100-113 | a dirty victim is written first (a failed write gives UNIXERR and changes nothing); then its entry is removed and the frame cleared |
| Buffer.BufMgr.ReadPage | buf.C:119-150 | a hit adds one pin and the reference bit to that frame only, with accesses+1 and no disk I/O; on a miss the hand ends where `Sweep` says and BUFFEREXCEEDED comes exactly when every frame was pinned. On success the sweep's victim is evicted as `allocBuf` does, and the page is read into its frame, which becomes `Set(file, pageNo)` and indexed, with diskreads+1 and accesses+1 and the frame's contents those of the page. When `allocBuf` fails the state is the one it leaves. When the read fails the victim is evicted and its frame left empty and unindexed, with nothing read or counted. Every failure returns frame -1 |
| Buffer.BufMgr.ReadIn | buf.C:127-140 | the miss path of `readPage`, as stated for ReadPage |
| Buffer.BufMgr.LoadPage | buf.C:131-140 | once `allocBuf` gave an empty frame: a failed read changes nothing; otherwise the frame holds the page's contents, becomes `Set(file, pageNo)` and is indexed, with diskreads+1 and accesses+1 |
| Buffer.BufMgr.UnPinPage | buf.C:157-176 | HASHNOTFOUND for a page that is not resident; PAGENOTPINNED with no change when the pin count is 0; otherwise the pin count drops by one and dirty becomes dirty ∨ dirtyFlag, on that frame only |
| Buffer.BufMgr.AllocPage | buf.C:179-209 | a failed allocation in the file returns its status and changes nothing. Otherwise the page is one the file did not hold, now zeroed, and the rest is as stated for BufferNewPage on the files with that page added, including the disposal requested on every later failure. On OK the new page is in the frame chosen by the clock, `Set(file, pageNo)` and indexed. Every failure returns frame -1 |
| Buffer.BufMgr.BufferNewPage | buf.C:186-208 | the hand ends where `Sweep` says; BUFFEREXCEEDED exactly when every frame was pinned. When `allocBuf` fails (BUFFEREXCEEDED or UNIXERR) its state is kept and the page is disposed of. Otherwise the victim is evicted as `allocBuf` does, and HASHTBLERROR comes exactly when the index still holds the page; then the frame is cleared and the page disposed of. On OK the frame is `Set(file, pageNo)` and indexed. The page's disposal is requested on every failure and only then; the files after it follow its ghost outcome `disposed`; every failure returns frame -1 |
| Buffer.BufMgr.Refuse | buf.C:197-202 | the frame is cleared and the page disposed of in its file, keeping the invariant |
| Buffer.BufMgr.Install | buf.C:136-139 | the page is indexed at the empty frame and the frame becomes `Set(file, pageNo)`, keeping the invariant |
| Buffer.BufMgr.DisposePage | buf.C:213-228 | a resident frame of the page is cleared, whatever its pin count; the page's entry is removed; the file's disposal is always requested, and its status is the result |
| Buffer.BufMgr.FlushFile | buf.C:230-265 | table, index and files equal the three folds at `stop`; OK exactly when every frame was passed, and then no frame holds the file, the index lost exactly its entries and every dirty page was written; PAGEPINNED, BADBUFFER or a write error name the frame where the flush stopped; the invariant is kept |
| Buffer.BufMgr.FlushFrames | buf.C:234-262 | the loop: every frame before `stop` could be passed, and the state is the three folds at `stop` |
| Buffer.BufMgr.FlushFrame | buf.C:235-261 | one frame: PAGEPINNED or BADBUFFER change nothing; a failed write changes nothing; otherwise the frame is flushed, its entry dropped and a dirty page written back |
| Buffer.BufMgr.FlushAll | buf.C:44-63 | the destructor's loop writes back each resident dirty page (the page then holds its frame's contents, or its old contents if the write failed); the files keep their pages and every other page is unchanged |

## Left out

- `printSelf`, the `DEBUGBUF` traces and the `ASSERT` macro write only to the console.
- The hash table's size (buf.C:37) uses floating point and has no effect on behaviour. The `BufHashTbl` class is not part of this model: the index is a `map`, and an insertion fails exactly when the key is already present.
- `BufDesc::Clear`, `BufDesc::Set` and `advanceClock` are declared in buf.h, which is not part of this model. They are given their usual meaning (see `Frames.BufDesc` and `Clock.Advance`).
- The `File` class is not part of this model. `Disk.FileStore` stands in for it, with a few simplifications:
  - one store holds the pages of every open file;
  - a ghost log `disposals` records every disposal requested, so that a contract can say a rollback asked for one;
  - each operation may fail with UNIXERR (and with BADPAGENO on a page that does not exist);
  - an allocated page is empty (`ZeroPage`).
- Page bytes, the `memset` calls and the `Page*&` out-parameters are not modelled. A page's contents are an opaque `seq<bv8>`, and the page handed back is identified by its frame number.
- On failure, the frame out-parameter of `AllocBuf`, `ReadPage` and `AllocPage` is -1 (each ensures `st != OK ==> frame == -1`). The C code leaves it unset.
- ReadPage: when the file's read fails, the frame's contents are left as they were. The C code reads straight into `bufPool`, and what a failed `File::readPage` leaves there is not part of this model.
- `new[]` and `delete[]` are not modelled: the arrays are allocated by Dafny.
- Pin counts and the statistics counters are unbounded integers, so the model does not cover 32-bit overflow.
- ReadPage: the branch where `hashTable->insert` fails (buf.C:136-137) is not modelled as a branch. The lookup has just missed and `allocBuf` only removes entries, so the insertion always succeeds; an assertion proves this.
- AllocPage: a failed allocation in the file and a failed write-back inside `allocBuf` both surface as UNIXERR. The contract tells them apart by the ghost out-parameter `created`, which the C function does not have.
- AllocPage, BufferNewPage: the code ignores the status of the rollback's `disposePage`. The contracts state the files in terms of its outcome, the ghost out-parameter `disposed`.
- FlushAll: whether each write succeeded is not reported by the code, so the contract states only that each dirty page ends with either its old contents or its frame's contents.
- FlushFile: the frame where the flush stopped is the ghost out-parameter `stop`. The C function does not return it.
