/**
 * The buffer pool manager `BufMgr`: a fixed table of frame descriptors, a
 * parallel pool of pages, a hash index from (file, page number) to frame,
 * a clock hand and access statistics.
 */
module Buffer {
  import opened Errors
  import opened Frames
  import opened Clock
  import opened Flush
  import opened Disk

  /** `bufStats`: counters of page accesses, disk reads and disk writes. */
  datatype BufStats = BufStats(accesses: int, diskreads: int, diskwrites: int)

  /** The table once `allocBuf` has taken frame i: a resident victim is cleared, an empty frame kept. */
  function Vacate(descs: seq<BufDesc>, i: int): (r: seq<BufDesc>)
    requires 0 <= i < |descs|
  {
    if descs[i].valid then descs[i := descs[i].Clear()] else descs
  }

  /** Refilling or clearing a frame `allocBuf` has taken gives what it gives on the frame as it was. */
  lemma RefillVacated(descs: seq<BufDesc>, i: int, f: FileHandle, p: int)
    requires 0 <= i < |descs|
    ensures Vacate(descs, i)[i := Vacate(descs, i)[i].Set(f, p)] == descs[i := descs[i].Set(f, p)]
    ensures Vacate(descs, i)[i := Vacate(descs, i)[i].Clear()] == descs[i := descs[i].Clear()]
  {
  }

  /** The index once the victim d has lost its entry. */
  function Unindex(hash: map<PageId, int>, d: BufDesc): (r: map<PageId, int>) {
    if d.valid then hash - {d.Id()} else hash
  }

  /** The files once the victim d, whose frame holds p, has been written back when dirty. */
  function WriteBack(pages: map<PageId, Page>, d: BufDesc, p: Page): (r: map<PageId, Page>) {
    if d.valid && d.dirty then pages[d.Id() := p] else pages
  }

  /** The statistics once the victim d has been written back when dirty. */
  function CountWrite(s: BufStats, d: BufDesc): (r: BufStats) {
    if d.valid && d.dirty then s.(diskwrites := s.diskwrites + 1) else s
  }

  class BufMgr {
    const numBufs: int
    const bufTable: array<BufDesc>
    const bufPool: array<Page>
    var hashTable: map<PageId, int>
    var clockHand: int
    var bufStats: BufStats

    /** The object invariant: sizes, the hand's range, and the pool invariant. */
    ghost predicate Valid()
      reads this, bufTable
    {
      && bufTable.Length == numBufs
      && bufPool.Length == numBufs
      && HandOk(clockHand, numBufs)
      && PoolInvariant(bufTable[..], hashTable)
    }

    /** What the clock would do if `allocBuf` ran now. */
    ghost function NextVictim(): (r: SweepResult)
      reads this, bufTable
      requires Valid()
    {
      Sweep(bufTable[..], clockHand, 0)
    }

    /** A pool of `bufs` empty frames, with the hand on the last frame so that frame 0 is probed first. */
    constructor (bufs: int)
      requires bufs >= 0
      ensures Valid() && fresh(bufTable) && fresh(bufPool)
      ensures numBufs == bufs && bufTable[..] == seq(bufs, Initial)
      ensures hashTable == map[] && clockHand == bufs - 1
      ensures bufStats == BufStats(0, 0, 0)
    {
      var table := new BufDesc[bufs];
      for i := 0 to bufs
        invariant forall j :: 0 <= j < i ==> table[j] == Initial(j)
      {
        table[i] := Initial(i);
      }
      numBufs := bufs;
      bufTable := table;
      bufPool := new Page[bufs](_ => ZeroPage);
      hashTable := map[];
      clockHand := bufs - 1;
      bufStats := BufStats(0, 0, 0);
      InitialInvariant(bufs);
      assert table[..] == seq(bufs, Initial);
    }

    /**
     * `allocBuf`: choose a frame by the clock policy. A resident victim is
     * written back first when dirty, then loses its index entry and is
     * cleared. Fails with BufferExceeded after two full sweeps, and with
     * UnixErr when the write-back fails.
     */
    method AllocBuf(disk: FileStore) returns (st: Status, frame: int)
      requires Valid()
      modifies this`clockHand, this`hashTable, this`bufStats, bufTable, disk`pages
      ensures Valid()
      ensures st == OK || st == UnixErr || st == BufferExceeded
      // the hand stops where the clock says, after clearing reference bits on the way
      ensures clockHand == old(NextVictim()).hand
      // two sweeps without a victim: every frame pinned, the hand back where it was, all bits cleared
      ensures st == BufferExceeded <==> old(AllPinned(bufTable[..]))
      ensures st == BufferExceeded ==>
        clockHand == old(clockHand) && forall i :: 0 <= i < numBufs ==> !bufTable[i].refbit
      // a failed write-back of a dirty victim, or exhaustion, changes nothing but the swept bits
      ensures st != OK ==>
        && bufTable[..] == old(NextVictim()).descs
        && hashTable == old(hashTable) && bufStats == old(bufStats) && disk.pages == old(disk.pages)
      ensures st == UnixErr ==>
        old(NextVictim()).found && 0 <= clockHand < numBufs && bufTable[clockHand].valid && bufTable[clockHand].dirty
      // the victim found: an empty frame is taken as it is; a resident one, unpinned and
      // unreferenced, is written back when dirty, unhashed and cleared
      ensures st == OK ==>
        && old(NextVictim()).found && frame == clockHand && 0 <= frame < numBufs
        && (old(bufTable[frame]).valid ==> old(bufTable[frame]).pinCnt == 0)
      ensures st == OK ==>
        var v := old(NextVictim()).descs[frame];
        && bufTable[..] == Vacate(old(NextVictim()).descs, frame)
        && hashTable == Unindex(old(hashTable), v)
        && (v.valid ==> v.Id() in old(hashTable))
        && (v.valid && v.dirty ==> v.Id() in old(disk.pages))
        && disk.pages == WriteBack(old(disk.pages), v, bufPool[frame])
        && bufStats == CountWrite(old(bufStats), v)
      ensures st == OK ==> !bufTable[frame].valid && forall k :: k in hashTable ==> hashTable[k] != frame
      ensures st != OK ==> frame == -1
    {
      ghost var r := Sweep(bufTable[..], clockHand, 0);
      SweepFailsIffAllPinned(bufTable[..], clockHand);
      SweepExhausted(bufTable[..], clockHand);
      SweepChoosesUnpinned(bufTable[..], clockHand, 0);
      var found := RunClock();
      if !found {
        return BufferExceeded, -1;
      }
      if !bufTable[clockHand].valid {
        InvalidUnhashed(bufTable[..], hashTable, clockHand);
        return OK, clockHand;
      }
      st := ReplaceVictim(disk);
      return st, if st == OK then clockHand else -1;
    }

    /**
     * The loop of `allocBuf`: advance the hand, clearing reference bits on
     * the way, until it rests on an empty frame or on an unpinned,
     * unreferenced one, or until two full sweeps have passed.
     */
    method RunClock() returns (found: bool)
      requires Valid()
      modifies this`clockHand, bufTable
      ensures Valid()
      ensures var r := old(NextVictim());
        found == r.found && clockHand == r.hand && bufTable[..] == r.descs
    {
      ghost var r := Sweep(bufTable[..], clockHand, 0);
      var scanCounter := 0;
      while scanCounter < 2 * numBufs
        invariant 0 <= scanCounter <= 2 * numBufs
        invariant HandOk(clockHand, numBufs)
        invariant PoolInvariant(bufTable[..], hashTable)
        invariant Sweep(bufTable[..], clockHand, scanCounter) == r
        decreases 2 * numBufs - scanCounter
      {
        clockHand := Advance(clockHand, numBufs);
        var desc := bufTable[clockHand];
        if !desc.valid {
          return true;
        }
        if desc.refbit {
          RetagPreserves(bufTable[..], hashTable, clockHand, desc.(refbit := false));
          bufTable[clockHand] := desc.(refbit := false);
          scanCounter := scanCounter + 1;
          continue;
        }
        if desc.pinCnt > 0 {
          scanCounter := scanCounter + 1;
          continue;
        }
        return true;
      }
      return false;
    }

    /**
     * The end of `allocBuf` once the frame under the hand is a resident,
     * unpinned, unreferenced victim: a dirty page is written back first
     * (counted in `diskwrites`; a failed write gives UnixErr and changes
     * nothing), then the page loses its index entry and the frame is cleared.
     */
    method ReplaceVictim(disk: FileStore) returns (st: Status)
      requires Valid() && 0 <= clockHand < numBufs && bufTable[clockHand].valid
      modifies this`hashTable, this`bufStats, bufTable, disk`pages
      ensures Valid()
      ensures var v := old(bufTable[..])[clockHand];
        if v.dirty && st != OK then
          && st == UnixErr
          && bufTable[..] == old(bufTable[..])
          && hashTable == old(hashTable) && bufStats == old(bufStats) && disk.pages == old(disk.pages)
        else
          && st == OK
          && (v.dirty ==> v.Id() in old(disk.pages))
          && bufTable[..] == old(bufTable[..])[clockHand := v.Clear()]
          && hashTable == old(hashTable) - {v.Id()}
          && (forall k :: k in hashTable ==> hashTable[k] != clockHand)
          && disk.pages == (if v.dirty then old(disk.pages)[v.Id() := bufPool[clockHand]] else old(disk.pages))
          && bufStats == (if v.dirty then old(bufStats).(diskwrites := old(bufStats).diskwrites + 1)
                          else old(bufStats))
    {
      var desc := bufTable[clockHand];
      if desc.dirty {
        var written := disk.WritePage(desc.Id(), bufPool[clockHand]);
        if written != OK {
          return UnixErr;
        }
        RetagPreserves(bufTable[..], hashTable, clockHand, desc.(dirty := false));
        bufTable[clockHand] := desc.(dirty := false);
        bufStats := bufStats.(diskwrites := bufStats.diskwrites + 1);
      }
      EvictPreserves(bufTable[..], hashTable, clockHand);
      hashTable := hashTable - {desc.Id()};
      bufTable[clockHand] := bufTable[clockHand].Clear();
      InvalidUnhashed(bufTable[..], hashTable, clockHand);
      return OK;
    }
    /**
     * `readPage`: pin a page, reading it into a frame chosen by the clock
     * when it is not resident.
     */
    method ReadPage(disk: FileStore, file: FileHandle, pageNo: int) returns (st: Status, frame: int)
      requires Valid() && file != Null
      modifies this`clockHand, this`hashTable, this`bufStats, bufTable, bufPool, disk`pages
      ensures Valid()
      // a hit: no disk read, one more pin and a reference on that frame only
      ensures PageId(file, pageNo) in old(hashTable) ==>
        var f := old(hashTable[PageId(file, pageNo)]);
        && st == OK && frame == f
        && bufTable[..] == old(bufTable[..])[f := old(bufTable[f]).(refbit := true, pinCnt := old(bufTable[f]).pinCnt + 1)]
        && bufStats == old(bufStats).(accesses := old(bufStats).accesses + 1)
        && hashTable == old(hashTable) && clockHand == old(clockHand)
        && disk.pages == old(disk.pages) && bufPool[..] == old(bufPool[..])
      // the clock chooses the frame, clearing reference bits on the way
      ensures PageId(file, pageNo) !in old(hashTable) ==> clockHand == old(NextVictim()).hand
      ensures PageId(file, pageNo) !in old(hashTable) ==> (st == BufferExceeded <==> old(AllPinned(bufTable[..])))
      ensures PageId(file, pageNo) !in old(hashTable) ==> (st != BufferExceeded ==> old(NextVictim()).found && 0 <= clockHand < numBufs)
      ensures PageId(file, pageNo) !in old(hashTable) ==> (st == OK || st == BufferExceeded || IsFileError(st))
      ensures PageId(file, pageNo) !in old(hashTable) ==> (st != OK ==> frame == -1)
      // on success the victim is evicted as `allocBuf` does, and the page is read into
      // its frame, pinned once, referenced, clean and indexed
      ensures PageId(file, pageNo) !in old(hashTable) ==> st == OK ==>
        && frame == clockHand
        && (old(bufTable[frame]).valid ==> old(bufTable[frame]).pinCnt == 0)
        && PageId(file, pageNo) in old(disk.pages)
      ensures PageId(file, pageNo) !in old(hashTable) ==> st == OK ==>
        var v := old(NextVictim()).descs[clockHand];
        && bufTable[..] == old(NextVictim()).descs[clockHand := v.Set(file, pageNo)]
        && hashTable == Unindex(old(hashTable), v)[PageId(file, pageNo) := clockHand]
        && bufPool[..] == old(bufPool[..])[clockHand := old(disk.pages)[PageId(file, pageNo)]]
        && disk.pages == WriteBack(old(disk.pages), v, old(bufPool[..])[clockHand])
        && bufStats == CountWrite(old(bufStats), v).(accesses := old(bufStats).accesses + 1,
                                                      diskreads := old(bufStats).diskreads + 1)
      // `allocBuf` failed (no frame, or the victim's write-back failed): its state, nothing read
      ensures PageId(file, pageNo) !in old(hashTable) ==> st == BufferExceeded || (st != OK && bufTable[clockHand].valid) ==>
        && bufTable[..] == old(NextVictim()).descs
        && hashTable == old(hashTable) && bufStats == old(bufStats)
        && disk.pages == old(disk.pages) && bufPool[..] == old(bufPool[..])
        && (st != BufferExceeded ==> st == UnixErr && bufTable[clockHand].dirty)
      // the read failed: the victim was evicted, and its frame is left empty and unindexed
      ensures PageId(file, pageNo) !in old(hashTable) ==> st != OK && st != BufferExceeded && !bufTable[clockHand].valid ==>
        var v := old(NextVictim()).descs[clockHand];
        && (old(bufTable[..])[clockHand].valid ==> old(bufTable[..])[clockHand].pinCnt == 0)
        && bufTable[..] == Vacate(old(NextVictim()).descs, clockHand)
        && hashTable == Unindex(old(hashTable), v)
        && (forall k :: k in hashTable ==> hashTable[k] != clockHand)
        && disk.pages == WriteBack(old(disk.pages), v, old(bufPool[..])[clockHand])
        && bufStats == CountWrite(old(bufStats), v) && bufPool[..] == old(bufPool[..])
    {
      var key := PageId(file, pageNo);
      if key !in hashTable {
        st, frame := ReadIn(disk, file, pageNo);
      } else {
        frame := hashTable[key];
        var desc := bufTable[frame];
        RetagPreserves(bufTable[..], hashTable, frame, desc.(refbit := true, pinCnt := desc.pinCnt + 1));
        bufTable[frame] := desc.(refbit := true, pinCnt := desc.pinCnt + 1);
        bufStats := bufStats.(accesses := bufStats.accesses + 1);
        st := OK;
      }
    }

    /**
     * The miss path of `readPage`: take a frame from the clock, read the page
     * into it, then pin, reference and index it.
     */
    method ReadIn(disk: FileStore, file: FileHandle, pageNo: int) returns (st: Status, frame: int)
      requires Valid() && file != Null && PageId(file, pageNo) !in hashTable
      modifies this`clockHand, this`hashTable, this`bufStats, bufTable, bufPool, disk`pages
      ensures Valid()
      // the clock chooses the frame, clearing reference bits on the way
      ensures clockHand == old(NextVictim()).hand
      ensures (st == BufferExceeded <==> old(AllPinned(bufTable[..])))
      ensures (st != BufferExceeded ==> old(NextVictim()).found && 0 <= clockHand < numBufs)
      ensures (st == OK || st == BufferExceeded || IsFileError(st))
      ensures (st != OK ==> frame == -1)
      // on success the victim is evicted as `allocBuf` does, and the page is read into
      // its frame, pinned once, referenced, clean and indexed
      ensures st == OK ==>
        && frame == clockHand
        && (old(bufTable[frame]).valid ==> old(bufTable[frame]).pinCnt == 0)
        && PageId(file, pageNo) in old(disk.pages)
      ensures st == OK ==>
        var v := old(NextVictim()).descs[clockHand];
        && bufTable[..] == old(NextVictim()).descs[clockHand := v.Set(file, pageNo)]
        && hashTable == Unindex(old(hashTable), v)[PageId(file, pageNo) := clockHand]
        && bufPool[..] == old(bufPool[..])[clockHand := old(disk.pages)[PageId(file, pageNo)]]
        && disk.pages == WriteBack(old(disk.pages), v, old(bufPool[..])[clockHand])
        && bufStats == CountWrite(old(bufStats), v).(accesses := old(bufStats).accesses + 1,
                                                      diskreads := old(bufStats).diskreads + 1)
      // `allocBuf` failed (no frame, or the victim's write-back failed): its state, nothing read
      ensures st == BufferExceeded || (st != OK && bufTable[clockHand].valid) ==>
        && bufTable[..] == old(NextVictim()).descs
        && hashTable == old(hashTable) && bufStats == old(bufStats)
        && disk.pages == old(disk.pages) && bufPool[..] == old(bufPool[..])
        && (st != BufferExceeded ==> st == UnixErr && bufTable[clockHand].dirty)
      // the read failed: the victim was evicted, and its frame is left empty and unindexed
      ensures st != OK && st != BufferExceeded && !bufTable[clockHand].valid ==>
        var v := old(NextVictim()).descs[clockHand];
        && (old(bufTable[..])[clockHand].valid ==> old(bufTable[..])[clockHand].pinCnt == 0)
        && bufTable[..] == Vacate(old(NextVictim()).descs, clockHand)
        && hashTable == Unindex(old(hashTable), v)
        && (forall k :: k in hashTable ==> hashTable[k] != clockHand)
        && disk.pages == WriteBack(old(disk.pages), v, old(bufPool[..])[clockHand])
        && bufStats == CountWrite(old(bufStats), v) && bufPool[..] == old(bufPool[..])
    {
      st, frame := AllocBuf(disk);
      if st != OK {
        return;
      }
      // the lookup missed and allocBuf only removes entries, so the insertion will succeed
      assert PageId(file, pageNo) !in hashTable;
      st := LoadPage(disk, file, pageNo, frame);
      if st != OK {
        return st, -1;
      }
    }

    /**
     * The end of `readPage`'s miss path once `allocBuf` has given an empty
     * frame: read the page into it, then index it and `Set` the frame, with
     * one more disk read and access counted. A failed read changes nothing.
     */
    method LoadPage(disk: FileStore, file: FileHandle, pageNo: int, frame: int) returns (st: Status)
      requires Valid() && file != Null && PageId(file, pageNo) !in hashTable
      requires 0 <= frame < numBufs && !bufTable[frame].valid
      modifies this`hashTable, this`bufStats, bufTable, bufPool
      ensures Valid()
      ensures st == OK || IsFileError(st)
      ensures st == OK ==>
        && PageId(file, pageNo) in disk.pages
        && bufTable[..] == old(bufTable[..])[frame := old(bufTable[frame]).Set(file, pageNo)]
        && hashTable == old(hashTable)[PageId(file, pageNo) := frame]
        && bufPool[..] == old(bufPool[..])[frame := disk.pages[PageId(file, pageNo)]]
        && bufStats == old(bufStats).(accesses := old(bufStats).accesses + 1, diskreads := old(bufStats).diskreads + 1)
      ensures st != OK ==>
        && bufTable[..] == old(bufTable[..]) && hashTable == old(hashTable)
        && bufStats == old(bufStats) && bufPool[..] == old(bufPool[..])
    {
      var content;
      st, content := disk.ReadPage(PageId(file, pageNo));
      if st != OK {
        return;
      }
      bufPool[frame] := content;
      Install(file, pageNo, frame);
      bufStats := bufStats.(diskreads := bufStats.diskreads + 1, accesses := bufStats.accesses + 1);
    }

    /**
     * `unPinPage`: release one pin of a resident page, marking it dirty when
     * asked; dirty is never cleared here.
     */
    method UnPinPage(file: FileHandle, pageNo: int, dirtyFlag: bool) returns (st: Status)
      requires Valid()
      modifies bufTable
      ensures Valid()
      ensures PageId(file, pageNo) !in hashTable ==> st == HashNotFound && bufTable[..] == old(bufTable[..])
      ensures PageId(file, pageNo) in hashTable ==>
        var f := hashTable[PageId(file, pageNo)];
        var d := old(bufTable[f]);
        if d.pinCnt == 0 then
          st == PageNotPinned && bufTable[..] == old(bufTable[..])
        else
          st == OK && bufTable[..] == old(bufTable[..])[f := d.(pinCnt := d.pinCnt - 1, dirty := d.dirty || dirtyFlag)]
    {
      var key := PageId(file, pageNo);
      if key !in hashTable {
        return HashNotFound;
      }
      var f := hashTable[key];
      var desc := bufTable[f];
      if desc.pinCnt == 0 {
        return PageNotPinned;
      }
      desc := desc.(pinCnt := desc.pinCnt - 1);
      if dirtyFlag {
        desc := desc.(dirty := true);
      }
      RetagPreserves(bufTable[..], hashTable, f, desc);
      bufTable[f] := desc;
      return OK;
    }

    /**
     * `allocPage`: allocate a page of the file and buffer it, pinned once.
     * When no frame can be had, or the index refuses the page, the new page
     * is disposed of again; the outcome of that disposal is ignored by the
     * result, and `disposed` tells which way it went. `created` tells
     * whether the file allocated the page.
     */
    method AllocPage(disk: FileStore, file: FileHandle)
      returns (st: Status, pageNo: int, frame: int, ghost created: bool, ghost disposed: bool)
      requires Valid() && file != Null
      modifies this`clockHand, this`hashTable, this`bufStats, bufTable, disk
      ensures Valid()
      ensures st == OK || st == BufferExceeded || st == UnixErr || st == HashTblError || IsFileError(st)
      ensures st != OK ==> frame == -1
      ensures st == OK ==> created && !disposed
      // the new page's disposal is requested exactly when it was created and could not be buffered
      ensures disk.disposals == old(disk.disposals) + (if created && st != OK then [PageId(file, pageNo)] else [])
      // the file could not allocate a page: its status, and nothing changes
      ensures !created ==>
        && IsFileError(st) && !disposed
        && bufTable[..] == old(bufTable[..]) && hashTable == old(hashTable) && clockHand == old(clockHand)
        && bufStats == old(bufStats) && disk.pages == old(disk.pages)
      // the page was allocated: a page number the file did not hold, zeroed
      ensures created ==> pageNo >= 0 && PageId(file, pageNo) !in old(disk.pages)
      ensures created ==>
        && clockHand == old(NextVictim()).hand
        && (st == BufferExceeded <==> old(AllPinned(bufTable[..])))
        && (st == OK || st == BufferExceeded || st == UnixErr || st == HashTblError)
      // `allocBuf` failed: its state, and the new page disposed of unless that failed too
      ensures created && (st == BufferExceeded || st == UnixErr) ==>
        var p := old(disk.pages)[PageId(file, pageNo) := ZeroPage];
        && bufTable[..] == old(NextVictim()).descs
        && hashTable == old(hashTable) && bufStats == old(bufStats)
        && disk.pages == if disposed then p - {PageId(file, pageNo)} else p
      // a victim was found and evicted as `allocBuf` does
      ensures created && (st == OK || st == HashTblError) ==>
        var v := old(NextVictim()).descs[clockHand];
        && old(NextVictim()).found && 0 <= clockHand < numBufs
        && (old(bufTable[..])[clockHand].valid ==> old(bufTable[..])[clockHand].pinCnt == 0)
        && bufStats == CountWrite(old(bufStats), v)
        && (st == OK <==> PageId(file, pageNo) !in Unindex(old(hashTable), v))
      // success: the frame holds the new page, pinned once, referenced, clean and indexed
      ensures st == OK ==>
        var v := old(NextVictim()).descs[clockHand];
        var p := old(disk.pages)[PageId(file, pageNo) := ZeroPage];
        && frame == clockHand
        && bufTable[..] == old(NextVictim()).descs[clockHand := v.Set(file, pageNo)]
        && hashTable == Unindex(old(hashTable), v)[PageId(file, pageNo) := clockHand]
        && disk.pages == WriteBack(p, v, old(bufPool[..])[clockHand])
      // the index refused the page: the frame is cleared and the new page disposed of
      ensures created && st == HashTblError ==>
        var v := old(NextVictim()).descs[clockHand];
        var w := WriteBack(old(disk.pages)[PageId(file, pageNo) := ZeroPage], v, old(bufPool[..])[clockHand]);
        && bufTable[..] == old(NextVictim()).descs[clockHand := v.Clear()]
        && hashTable == Unindex(old(hashTable), v)
        && disk.pages == if disposed then w - {PageId(file, pageNo)} else w
    {
      st, pageNo := disk.AllocatePage(file);
      if st != OK {
        return st, pageNo, -1, false, false;
      }
      created := true;
      st, frame, disposed := BufferNewPage(disk, file, pageNo);
    }

    /**
     * The rest of `allocPage` once the file has allocated the page: buffer it
     * in a frame chosen by the clock, or dispose of it again when no frame
     * can be had or the index already holds it; `disposed` tells whether
     * that disposal succeeded.
     */
    method BufferNewPage(disk: FileStore, file: FileHandle, pageNo: int)
      returns (st: Status, frame: int, ghost disposed: bool)
      requires Valid() && file != Null && PageId(file, pageNo) in disk.pages
      modifies this`clockHand, this`hashTable, this`bufStats, bufTable, disk
      ensures Valid()
      ensures st == OK || st == BufferExceeded || st == UnixErr || st == HashTblError
      ensures clockHand == old(NextVictim()).hand
      ensures st == BufferExceeded <==> old(AllPinned(bufTable[..]))
      ensures st != OK ==> frame == -1
      ensures st == OK ==> !disposed
      // the page's disposal is requested on every failure, and only then
      ensures disk.disposals == old(disk.disposals) + (if st != OK then [PageId(file, pageNo)] else [])
      // `allocBuf` failed: its state, and the page disposed of unless that failed too
      ensures st == BufferExceeded || st == UnixErr ==>
        && bufTable[..] == old(NextVictim()).descs
        && hashTable == old(hashTable) && bufStats == old(bufStats)
        && disk.pages == if disposed then old(disk.pages) - {PageId(file, pageNo)} else old(disk.pages)
      // a victim was found and evicted as `allocBuf` does
      ensures st == OK || st == HashTblError ==>
        var v := old(NextVictim()).descs[clockHand];
        && old(NextVictim()).found && 0 <= clockHand < numBufs
        && (old(bufTable[..])[clockHand].valid ==> old(bufTable[..])[clockHand].pinCnt == 0)
        && bufStats == CountWrite(old(bufStats), v)
        && (st == OK <==> PageId(file, pageNo) !in Unindex(old(hashTable), v))
      // success: the frame holds the page, pinned once, referenced, clean and indexed
      ensures st == OK ==>
        var v := old(NextVictim()).descs[clockHand];
        && frame == clockHand
        && bufTable[..] == old(NextVictim()).descs[clockHand := v.Set(file, pageNo)]
        && hashTable == Unindex(old(hashTable), v)[PageId(file, pageNo) := clockHand]
        && disk.pages == WriteBack(old(disk.pages), v, old(bufPool[..])[clockHand])
      // the index refused the page: the frame is cleared and the page disposed of
      ensures st == HashTblError ==>
        var v := old(NextVictim()).descs[clockHand];
        var w := WriteBack(old(disk.pages), v, old(bufPool[..])[clockHand]);
        && bufTable[..] == old(NextVictim()).descs[clockHand := v.Clear()]
        && hashTable == Unindex(old(hashTable), v)
        && disk.pages == if disposed then w - {PageId(file, pageNo)} else w
    {
      var key := PageId(file, pageNo);
      ghost var swept := NextVictim().descs;
      st, frame := AllocBuf(disk);
      if st != OK {
        var disposal := disk.DisposePage(key);
        disposed := disposal == OK;
        st := if st == BufferExceeded then BufferExceeded else UnixErr;
        return;
      }
      RefillVacated(swept, frame, file, pageNo);
      if key in hashTable {
        disposed := Refuse(disk, key, frame);
        return HashTblError, -1, disposed;
      }
      Install(file, pageNo, frame);
      disposed := false;
    }

    /**
     * The rollback of `allocPage` when the index already holds the page: the
     * frame `allocBuf` gave is cleared and the page is disposed of in its
     * file; `disposed` tells whether that disposal succeeded.
     */
    method Refuse(disk: FileStore, key: PageId, frame: int) returns (ghost disposed: bool)
      requires Valid() && 0 <= frame < numBufs && !bufTable[frame].valid
      modifies bufTable, disk
      ensures Valid()
      ensures bufTable[..] == old(bufTable[..])[frame := old(bufTable[frame]).Clear()]
      ensures disk.pages == if disposed then old(disk.pages) - {key} else old(disk.pages)
      ensures disk.disposals == old(disk.disposals) + [key]
    {
      RetagPreserves(bufTable[..], hashTable, frame, bufTable[frame].Clear());
      bufTable[frame] := bufTable[frame].Clear();
      var disposal := disk.DisposePage(key);
      disposed := disposal == OK;
    }

    /**
     * Index the page at an empty frame and set the frame's descriptor:
     * pinned once, referenced and clean.
     */
    method Install(file: FileHandle, pageNo: int, frame: int)
      requires Valid() && file != Null && PageId(file, pageNo) !in hashTable
      requires 0 <= frame < numBufs && !bufTable[frame].valid
      modifies this`hashTable, bufTable
      ensures Valid()
      ensures hashTable == old(hashTable)[PageId(file, pageNo) := frame]
      ensures bufTable[..] == old(bufTable[..])[frame := old(bufTable[frame]).Set(file, pageNo)]
    {
      InstallPreserves(bufTable[..], hashTable, frame, file, pageNo);
      hashTable := hashTable[PageId(file, pageNo) := frame];
      bufTable[frame] := bufTable[frame].Set(file, pageNo);
    }

    /**
     * `disposePage`: drop the page from the pool whether or not it is
     * pinned, then dispose of it in the file, resident or not; the file's
     * status is the result.
     */
    method DisposePage(disk: FileStore, file: FileHandle, pageNo: int) returns (st: Status)
      requires Valid() && file != Null
      modifies this`hashTable, bufTable, disk
      ensures Valid()
      ensures hashTable == old(hashTable) - {PageId(file, pageNo)}
      ensures PageId(file, pageNo) in old(hashTable) ==>
        var f := old(hashTable[PageId(file, pageNo)]);
        bufTable[..] == old(bufTable[..])[f := old(bufTable[f]).Clear()]
      ensures PageId(file, pageNo) !in old(hashTable) ==> bufTable[..] == old(bufTable[..])
      ensures st == OK || IsFileError(st)
      ensures disk.pages == if st == OK then old(disk.pages) - {PageId(file, pageNo)} else old(disk.pages)
      ensures disk.disposals == old(disk.disposals) + [PageId(file, pageNo)]
    {
      var key := PageId(file, pageNo);
      if key in hashTable {
        var f := hashTable[key];
        EvictPreserves(bufTable[..], hashTable, f);
        bufTable[f] := bufTable[f].Clear();
      }
      hashTable := hashTable - {key};
      st := disk.DisposePage(key);
    }

    /**
     * `flushFile`: in frame order, write back and invalidate every page of
     * the file. It stops at the first pinned page of the file (PagePinned),
     * at the first stale frame naming it (BadBuffer) or at the first failed
     * write (that status); the frames before `stop` are already flushed.
     */
    method FlushFile(disk: FileStore, file: FileHandle) returns (st: Status, ghost stop: int)
      requires Valid()
      modifies this`hashTable, bufTable, disk`pages
      ensures Valid()
      ensures 0 <= stop <= numBufs
      ensures st == OK <==> stop == numBufs
      ensures st == OK || st == PagePinned || st == BadBuffer || IsFileError(st)
      ensures forall j :: 0 <= j < stop ==> Passable(old(bufTable[j]), file)
      ensures bufTable[..] == FlushPrefix(old(bufTable[..]), file, stop)
      ensures hashTable == DropEntries(old(bufTable[..]), old(hashTable), file, stop)
      ensures disk.pages == WrittenBack(old(disk.pages), old(bufTable[..]), bufPool[..], file, stop)
      ensures st == PagePinned ==>
        stop < numBufs && Holds(old(bufTable[stop]), file) && old(bufTable[stop]).pinCnt > 0
      ensures st == BadBuffer ==>
        stop < numBufs && !old(bufTable[stop]).valid && old(bufTable[stop]).file == file
      ensures IsFileError(st) ==>
        stop < numBufs && Holds(old(bufTable[stop]), file) && old(bufTable[stop]).dirty
        && bufTable[stop] == old(bufTable[stop])
      ensures file != Null ==> st != BadBuffer
      ensures st == OK ==>
        && (forall i :: 0 <= i < numBufs ==> !Holds(bufTable[i], file))
        && hashTable == (map k | k in old(hashTable) && k.file != file :: old(hashTable)[k])
        && (forall i :: 0 <= i < numBufs && old(Holds(bufTable[i], file) && bufTable[i].dirty) ==>
              old(bufTable[i]).Id() in disk.pages && disk.pages[old(bufTable[i]).Id()] == bufPool[i])
    {
      ghost var descs, hash, pages, pool := bufTable[..], hashTable, disk.pages, bufPool[..];
      st, stop := FlushFrames(disk, file);
      FlushPreserves(descs, hash, file, stop);
      if st == OK {
        FlushComplete(pages, descs, pool, hash, file);
      } else {
        assert bufTable[stop] == descs[stop] by { FlushPrefixAt(descs, file, stop); }
      }
    }

    /**
     * The loop of `flushFile`: pass the frames in order until one stops the
     * flush; `stop` is that frame, or numBufs when none does.
     */
    method FlushFrames(disk: FileStore, file: FileHandle) returns (st: Status, ghost stop: int)
      requires bufTable.Length == numBufs && bufPool.Length == numBufs
      modifies this`hashTable, bufTable, disk`pages
      ensures 0 <= stop <= numBufs
      ensures st == OK <==> stop == numBufs
      ensures forall j :: 0 <= j < stop ==> Passable(old(bufTable[j]), file)
      ensures bufTable[..] == FlushPrefix(old(bufTable[..]), file, stop)
      ensures hashTable == DropEntries(old(bufTable[..]), old(hashTable), file, stop)
      ensures disk.pages == WrittenBack(old(disk.pages), old(bufTable[..]), bufPool[..], file, stop)
      ensures st != OK ==>
        var d := old(bufTable[stop]);
        if Passable(d, file) then Holds(d, file) && d.dirty && IsFileError(st)
        else st == (if Holds(d, file) then PagePinned else BadBuffer)
    {
      ghost var descs, hash, pages, pool := bufTable[..], hashTable, disk.pages, bufPool[..];
      st, stop := OK, numBufs;
      for i := 0 to numBufs
        invariant st == OK && stop == numBufs
        invariant forall j :: 0 <= j < i ==> Passable(descs[j], file)
        invariant bufTable[..] == FlushPrefix(descs, file, i)
        invariant hashTable == DropEntries(descs, hash, file, i)
        invariant disk.pages == WrittenBack(pages, descs, pool, file, i)
      {
        assert bufTable[i] == descs[i] by { FlushPrefixAt(descs, file, i); }
        st := FlushFrame(disk, file, i);
        if st != OK {
          stop := i;
          break;
        }
      }
    }

    /**
     * The body of `flushFile`'s loop for frame i: a pinned page of the file
     * gives PagePinned, a stale frame naming the file gives BadBuffer; a page
     * of the file is written back when dirty (a failed write returns its
     * status), loses its index entry and is invalidated. Nothing changes on
     * failure.
     */
    method FlushFrame(disk: FileStore, file: FileHandle, i: int) returns (st: Status)
      requires bufTable.Length == numBufs && bufPool.Length == numBufs && 0 <= i < numBufs
      modifies this`hashTable, bufTable, disk`pages
      ensures var d := old(bufTable[i]);
        !Passable(d, file) ==>
          && st == (if Holds(d, file) then PagePinned else BadBuffer)
          && bufTable[..] == old(bufTable[..]) && hashTable == old(hashTable) && disk.pages == old(disk.pages)
      ensures var d := old(bufTable[i]);
        Passable(d, file) && st != OK ==>
          && Holds(d, file) && d.dirty && IsFileError(st)
          && bufTable[..] == old(bufTable[..]) && hashTable == old(hashTable) && disk.pages == old(disk.pages)
      ensures var d := old(bufTable[i]);
        st == OK ==>
          && Passable(d, file)
          && bufTable[..] == old(bufTable[..])[i := FlushOne(d, file)]
          && hashTable == (if Holds(d, file) then old(hashTable) - {d.Id()} else old(hashTable))
          && disk.pages == (if Holds(d, file) && d.dirty then old(disk.pages)[d.Id() := bufPool[i]]
                            else old(disk.pages))
    {
      var desc := bufTable[i];
      if desc.valid && desc.file == file {
        if desc.pinCnt > 0 {
          return PagePinned;
        }
        if desc.dirty {
          var written := disk.WritePage(desc.Id(), bufPool[i]);
          if written != OK {
            return written;
          }
        }
        hashTable := hashTable - {PageId(file, desc.pageNo)};
        bufTable[i] := desc.(dirty := false, file := Null, pageNo := -1, valid := false);
      } else if !desc.valid && desc.file == file {
        return BadBuffer;
      }
      return OK;
    }

    /**
     * The destructor's write-back: every resident dirty page is written to
     * its file, best effort (a failed write is neither retried nor reported).
     * Descriptors are left as they are.
     */
    method FlushAll(disk: FileStore)
      requires Valid()
      modifies disk`pages
      ensures disk.pages.Keys == old(disk.pages).Keys
      ensures forall id :: id in old(disk.pages) && id !in DirtyIds(bufTable[..], numBufs) ==>
        disk.pages[id] == old(disk.pages)[id]
      ensures forall i :: 0 <= i < numBufs && bufTable[i].valid && bufTable[i].dirty && bufTable[i].Id() in disk.pages ==>
        disk.pages[bufTable[i].Id()] == old(disk.pages)[bufTable[i].Id()] || disk.pages[bufTable[i].Id()] == bufPool[i]
    {
      for i := 0 to numBufs
        invariant disk.pages.Keys == old(disk.pages).Keys
        invariant forall id :: id in old(disk.pages) && id !in DirtyIds(bufTable[..], i) ==>
          disk.pages[id] == old(disk.pages)[id]
        invariant forall j :: 0 <= j < i && bufTable[j].valid && bufTable[j].dirty && bufTable[j].Id() in disk.pages ==>
          disk.pages[bufTable[j].Id()] == old(disk.pages)[bufTable[j].Id()] || disk.pages[bufTable[j].Id()] == bufPool[j]
      {
        var desc := bufTable[i];
        if desc.valid && desc.dirty {
          forall j | 0 <= j < i && bufTable[j].valid && bufTable[j].dirty
            ensures bufTable[j].Id() != desc.Id()
          {
            ResidentUnique(bufTable[..], hashTable, i, j);
          }
          var _ := disk.WritePage(desc.Id(), bufPool[i]);
        }
        assert DirtyIds(bufTable[..], i + 1) == DirtyIds(bufTable[..], i) + (if desc.valid && desc.dirty then {desc.Id()} else {});
      }
    }
  }
}
