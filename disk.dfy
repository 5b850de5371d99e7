/**
 * The file layer the buffer manager calls (`File::readPage`, `writePage`,
 * `allocatePage`, `disposePage`). Its internals are not part of this model:
 * every operation may fail, and the model keeps only which pages exist and
 * what each holds.
 */
module Disk {
  import opened Errors
  import opened Frames

  /** The bytes of one page; their layout is opaque to the buffer manager. */
  type Page = seq<bv8>

  /** The contents of a zeroed frame or a freshly allocated page. */
  const ZeroPage: Page := []

  /** All open files, page by page. */
  class FileStore {
    var pages: map<PageId, Page>
    /** Every page whose disposal was requested, in order, whether or not it succeeded. */
    ghost var disposals: seq<PageId>

    constructor ()
      ensures pages == map[] && disposals == []
    {
      pages := map[];
      disposals := [];
    }

    /** Read a page: fails on a page the file does not hold, or on an I/O error. */
    method ReadPage(id: PageId) returns (st: Status, p: Page)
      ensures st == OK || IsFileError(st)
      ensures st == OK ==> id in pages && p == pages[id]
      ensures id !in pages ==> st == BadPageNo
    {
      if id !in pages {
        st, p := BadPageNo, ZeroPage;
        return;
      }
      var ok: bool := *;
      if ok {
        st, p := OK, pages[id];
      } else {
        st, p := UnixErr, ZeroPage;
      }
    }

    /** Write a page back: on success the page now holds p; on failure nothing changes. */
    method WritePage(id: PageId, p: Page) returns (st: Status)
      modifies this`pages
      ensures st == OK || IsFileError(st)
      ensures st == OK ==> id in old(pages)
      ensures pages == if st == OK then old(pages)[id := p] else old(pages)
    {
      if id !in pages {
        return BadPageNo;
      }
      var ok: bool := *;
      if ok {
        pages := pages[id := p];
        st := OK;
      } else {
        st := UnixErr;
      }
    }

    /** Allocate a page of f: on success a page number f did not hold, now zeroed. */
    method AllocatePage(f: FileHandle) returns (st: Status, pageNo: int)
      modifies this`pages
      ensures st == OK || IsFileError(st)
      ensures st == OK ==> pageNo >= 0 && PageId(f, pageNo) !in old(pages)
      ensures pages == if st == OK then old(pages)[PageId(f, pageNo) := ZeroPage] else old(pages)
    {
      var ok: bool := *;
      pageNo := *;
      if ok && pageNo >= 0 && PageId(f, pageNo) !in pages {
        pages := pages[PageId(f, pageNo) := ZeroPage];
        st := OK;
      } else {
        st := UnixErr;
      }
    }

    /** Dispose of a page: on success the file no longer holds it. */
    method DisposePage(id: PageId) returns (st: Status)
      modifies this
      ensures st == OK || IsFileError(st)
      ensures st == OK ==> id in old(pages)
      ensures pages == if st == OK then old(pages) - {id} else old(pages)
      ensures disposals == old(disposals) + [id]
    {
      disposals := disposals + [id];
      if id !in pages {
        return BadPageNo;
      }
      var ok: bool := *;
      if ok {
        pages := pages - {id};
        st := OK;
      } else {
        st := UnixErr;
      }
    }
  }
}
