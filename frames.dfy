/**
 * The frame descriptor table of the buffer pool, and the invariant that ties
 * it to the hash index from (file, page number) to frame number.
 */
module Frames {

  /** A `File*` as the buffer manager sees it: null, or the identity of an open file. */
  datatype FileHandle = Null | File(id: nat)

  /** The key of the hash index: a page of a file. */
  datatype PageId = PageId(file: FileHandle, pageNo: int)

  /** One `BufDesc` of `bufTable`. */
  datatype BufDesc = BufDesc(
    frameNo: int,
    file: FileHandle,
    pageNo: int,
    pinCnt: int,
    dirty: bool,
    valid: bool,
    refbit: bool)
  {
    /** The page this frame holds (meaningful only when valid). */
    function Id(): (r: PageId) {
      PageId(file, pageNo)
    }

    /** `BufDesc::Clear`: back to the empty state; the frame number is kept. */
    function Clear(): (r: BufDesc) {
      this.(file := Null, pageNo := -1, pinCnt := 0, dirty := false, valid := false, refbit := false)
    }

    /** `BufDesc::Set(f, p)`: the frame now holds page p of f, pinned once, referenced and clean. */
    function Set(f: FileHandle, p: int): (r: BufDesc) {
      this.(file := f, pageNo := p, pinCnt := 1, refbit := true, dirty := false, valid := true)
    }
  }

  /** The descriptor the constructor leaves in frame i (zeroed memory, frameNo = i). */
  function Initial(i: int): (r: BufDesc) {
    BufDesc(i, Null, 0, 0, false, false, false)
  }

  /** What every descriptor satisfies at all times. */
  ghost predicate WellFormed(d: BufDesc, i: int) {
    && d.frameNo == i
    && d.pinCnt >= 0
    && (d.valid ==> d.file != Null)
    && (!d.valid ==> d.file == Null && d.pinCnt == 0 && !d.dirty)
  }

  /**
   * The pool invariant: every descriptor is well formed, a frame is valid
   * exactly when the hash index maps its page to it, and every entry of the
   * index points at a valid frame that holds that page.
   */
  ghost predicate PoolInvariant(descs: seq<BufDesc>, hash: map<PageId, int>) {
    && (forall i :: 0 <= i < |descs| ==> WellFormed(descs[i], i))
    && (forall i :: 0 <= i < |descs| && descs[i].valid ==>
          descs[i].Id() in hash && hash[descs[i].Id()] == i)
    && (forall k :: k in hash ==>
          0 <= hash[k] < |descs| && descs[hash[k]].valid && descs[hash[k]].Id() == k)
  }

  /** Two frames never hold the same page. */
  lemma ResidentUnique(descs: seq<BufDesc>, hash: map<PageId, int>, i: int, j: int)
    requires PoolInvariant(descs, hash)
    requires 0 <= i < |descs| && 0 <= j < |descs|
    requires i != j && descs[i].valid && descs[j].valid
    ensures descs[i].Id() != descs[j].Id()
  {
  }

  /** An invalid frame has no entry in the hash index. */
  lemma InvalidUnhashed(descs: seq<BufDesc>, hash: map<PageId, int>, i: int)
    requires PoolInvariant(descs, hash)
    requires 0 <= i < |descs| && !descs[i].valid
    ensures forall k :: k in hash ==> hash[k] != i
  {
  }

  /** The initial table with an empty index satisfies the invariant. */
  lemma InitialInvariant(n: nat)
    ensures PoolInvariant(seq(n, Initial), map[])
  {
  }

  /** Evicting a valid frame (Clear plus removing its entry) keeps the invariant. */
  lemma EvictPreserves(descs: seq<BufDesc>, hash: map<PageId, int>, i: int)
    requires PoolInvariant(descs, hash)
    requires 0 <= i < |descs| && descs[i].valid
    ensures PoolInvariant(descs[i := descs[i].Clear()], hash - {descs[i].Id()})
  {
  }

  /** Installing a page that is not resident in an invalid frame keeps the invariant. */
  lemma InstallPreserves(descs: seq<BufDesc>, hash: map<PageId, int>, i: int, f: FileHandle, p: int)
    requires PoolInvariant(descs, hash)
    requires 0 <= i < |descs| && !descs[i].valid
    requires f != Null && PageId(f, p) !in hash
    ensures PoolInvariant(descs[i := descs[i].Set(f, p)], hash[PageId(f, p) := i])
  {
  }

  /**
   * A change to a frame that keeps its identity and validity, keeps its pin
   * count non-negative and respects the empty-frame shape keeps the invariant
   * (reference bit, pin count and dirty updates; re-clearing an empty frame).
   */
  lemma RetagPreserves(descs: seq<BufDesc>, hash: map<PageId, int>, i: int, d: BufDesc)
    requires PoolInvariant(descs, hash)
    requires 0 <= i < |descs|
    requires d.valid == descs[i].valid && d.frameNo == i
    requires d.valid ==> d.Id() == descs[i].Id()
    requires WellFormed(d, i)
    ensures PoolInvariant(descs[i := d], hash)
  {
  }
}
