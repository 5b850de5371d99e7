/**
 * What `BufMgr::flushFile` does to the descriptor table, the hash index and
 * the files after it has passed over a prefix of the frames, and the facts
 * that hold about it.
 */
module Flush {
  import opened Frames
  import opened Disk

  /** The frame holds a resident page of file f. */
  predicate Holds(d: BufDesc, f: FileHandle) {
    d.valid && d.file == f
  }

  /** The flush passes over this frame without stopping: not a pinned page of f, not a stale frame naming f. */
  predicate Passable(d: BufDesc, f: FileHandle) {
    !(Holds(d, f) && d.pinCnt > 0) && !(!d.valid && d.file == f)
  }

  /** One frame after the flush: a page of f is cleaned and invalidated (pin count and reference bit are left). */
  function FlushOne(d: BufDesc, f: FileHandle): (r: BufDesc) {
    if Holds(d, f) then d.(dirty := false, file := Null, pageNo := -1, valid := false) else d
  }

  /** The table after frames 0 .. k-1 have been flushed. */
  function FlushPrefix(descs: seq<BufDesc>, f: FileHandle, k: nat): (r: seq<BufDesc>)
    requires k <= |descs|
    ensures |r| == |descs|
  {
    if k == 0 then descs else FlushPrefix(descs, f, k - 1)[k - 1 := FlushOne(descs[k - 1], f)]
  }

  /** The hash index after the entries of the pages of f in frames 0 .. k-1 have been removed. */
  function DropEntries(descs: seq<BufDesc>, hash: map<PageId, int>, f: FileHandle, k: nat): (r: map<PageId, int>)
    requires k <= |descs|
  {
    if k == 0 then hash
    else
      var h := DropEntries(descs, hash, f, k - 1);
      if Holds(descs[k - 1], f) then h - {descs[k - 1].Id()} else h
  }

  /** The files after the dirty pages of f in frames 0 .. k-1 have been written back. */
  function WrittenBack(pages: map<PageId, Page>, descs: seq<BufDesc>, pool: seq<Page>, f: FileHandle, k: nat)
    : (r: map<PageId, Page>)
    requires k <= |descs| == |pool|
  {
    if k == 0 then pages
    else
      var p := WrittenBack(pages, descs, pool, f, k - 1);
      if Holds(descs[k - 1], f) && descs[k - 1].dirty then p[descs[k - 1].Id() := pool[k - 1]] else p
  }

  /** The pages written back while passing frames 0 .. k-1. */
  function WrittenIds(descs: seq<BufDesc>, f: FileHandle, k: nat): (r: set<PageId>)
    requires k <= |descs|
  {
    if k == 0 then {}
    else
      var x := descs[k - 1];
      WrittenIds(descs, f, k - 1) + if Holds(x, f) && x.dirty then {x.Id()} else {}
  }

  /** The pages held dirty by resident frames 0 .. k-1, whatever their file. */
  ghost function DirtyIds(descs: seq<BufDesc>, k: nat): (r: set<PageId>)
    requires k <= |descs|
  {
    set j | 0 <= j < k && descs[j].valid && descs[j].dirty :: descs[j].Id()
  }

  /** Frames below k are flushed, the others untouched. */
  lemma {:induction false} FlushPrefixAt(descs: seq<BufDesc>, f: FileHandle, k: nat)
    requires k <= |descs|
    ensures forall j :: 0 <= j < |descs| ==>
      FlushPrefix(descs, f, k)[j] == if j < k then FlushOne(descs[j], f) else descs[j]
  {
    if k > 0 {
      FlushPrefixAt(descs, f, k - 1);
    }
  }

  /** Flushing unpinned pages of f keeps the pool invariant. */
  lemma {:induction false} FlushPreserves(descs: seq<BufDesc>, hash: map<PageId, int>, f: FileHandle, k: nat)
    requires PoolInvariant(descs, hash) && k <= |descs|
    requires forall j :: 0 <= j < k ==> !(Holds(descs[j], f) && descs[j].pinCnt > 0)
    ensures PoolInvariant(FlushPrefix(descs, f, k), DropEntries(descs, hash, f, k))
  {
    if k > 0 {
      FlushPreserves(descs, hash, f, k - 1);
      var d, h := FlushPrefix(descs, f, k - 1), DropEntries(descs, hash, f, k - 1);
      var x := descs[k - 1];
      assert d[k - 1] == x by { FlushPrefixAt(descs, f, k - 1); }
      if Holds(x, f) {
        assert WellFormed(x, k - 1);
        EvictPreserves(d, h, k - 1);
        var cleared := d[k - 1 := x.Clear()];
        RetagPreserves(cleared, h - {x.Id()}, k - 1, FlushOne(x, f));
        assert cleared[k - 1 := FlushOne(x, f)] == d[k - 1 := FlushOne(x, f)];
      } else {
        assert d[k - 1 := FlushOne(x, f)] == d;
      }
    }
  }

  /** The entries left after k frames: exactly those not of f pointing below k. */
  lemma {:induction false} DropEntriesAt(descs: seq<BufDesc>, hash: map<PageId, int>, f: FileHandle, k: nat)
    requires PoolInvariant(descs, hash) && k <= |descs|
    ensures DropEntries(descs, hash, f, k)
         == map key | key in hash && !(key.file == f && hash[key] < k) :: hash[key]
  {
    if k > 0 {
      DropEntriesAt(descs, hash, f, k - 1);
      var x := descs[k - 1];
      if Holds(x, f) {
        assert x.Id() in hash && hash[x.Id()] == k - 1;
      }
    }
  }

  /**
   * Once every frame is passed, no frame holds a page of f and the index has
   * lost exactly the entries of f.
   */
  lemma FlushedFileGone(descs: seq<BufDesc>, hash: map<PageId, int>, f: FileHandle)
    requires PoolInvariant(descs, hash)
    ensures forall i :: 0 <= i < |descs| ==> !Holds(FlushPrefix(descs, f, |descs|)[i], f)
    ensures DropEntries(descs, hash, f, |descs|) == map key | key in hash && key.file != f :: hash[key]
  {
    FlushPrefixAt(descs, f, |descs|);
    DropEntriesAt(descs, hash, f, |descs|);
    var m1 := map key | key in hash && !(key.file == f && hash[key] < |descs|) :: hash[key];
    var m2 := map key | key in hash && key.file != f :: hash[key];
    assert m1.Keys == m2.Keys;
  }

  /**
   * After k frames the files hold, for each dirty page of f met, that frame's
   * contents, and every other page as it was.
   */
  lemma {:induction false} WrittenBackAt(
    pages: map<PageId, Page>, descs: seq<BufDesc>, pool: seq<Page>, hash: map<PageId, int>, f: FileHandle, k: nat)
    requires PoolInvariant(descs, hash) && k <= |descs| == |pool|
    ensures var r := WrittenBack(pages, descs, pool, f, k);
      && r.Keys == pages.Keys + WrittenIds(descs, f, k)
      && (forall j :: 0 <= j < k && Holds(descs[j], f) && descs[j].dirty ==>
            descs[j].Id() in r && r[descs[j].Id()] == pool[j])
      && (forall id :: id in pages && id !in WrittenIds(descs, f, k) ==> r[id] == pages[id])
  {
    if k > 0 {
      WrittenBackAt(pages, descs, pool, hash, f, k - 1);
      var x := descs[k - 1];
      var r := WrittenBack(pages, descs, pool, f, k);
      if Holds(x, f) && x.dirty {
        forall j | 0 <= j < k - 1 && Holds(descs[j], f) && descs[j].dirty
          ensures descs[j].Id() != x.Id()
        {
          ResidentUnique(descs, hash, j, k - 1);
        }
      }
    }
  }

  /**
   * A flush that passed every frame leaves no page of f resident, drops
   * exactly the index entries of f and has written every dirty page of f.
   */
  lemma FlushComplete(
    pages: map<PageId, Page>, descs: seq<BufDesc>, pool: seq<Page>, hash: map<PageId, int>, f: FileHandle)
    requires PoolInvariant(descs, hash) && |descs| == |pool|
    ensures forall i :: 0 <= i < |descs| ==> !Holds(FlushPrefix(descs, f, |descs|)[i], f)
    ensures DropEntries(descs, hash, f, |descs|) == map key | key in hash && key.file != f :: hash[key]
    ensures var r := WrittenBack(pages, descs, pool, f, |descs|);
      forall i :: 0 <= i < |descs| && Holds(descs[i], f) && descs[i].dirty ==>
        descs[i].Id() in r && r[descs[i].Id()] == pool[i]
  {
    FlushedFileGone(descs, hash, f);
    WrittenBackAt(pages, descs, pool, hash, f, |descs|);
  }
}
