/**
 * The disk manager as an abstract component: a map from page id to the bytes
 * last written under it, the next page id to hand out, and a log of the calls
 * the buffer pool made.  No byte-level file I/O.
 */
module Disk {
  import opened Types

  datatype DiskEvent =
    | Read(pageId: PageId)
    | Write(pageId: PageId)
    | Allocate(pageId: PageId)
    | Deallocate(pageId: PageId)

  /** What ReadPage puts into the frame: the stored page, or zeros for a page never written. */
  function Stored(store: map<PageId, PageData>, p: PageId): PageData
  {
    if p in store then store[p] else Zeros()
  }

  class DiskManager {
    var store: map<PageId, PageData>
    var nextPageId: PageId
    var log: seq<DiskEvent>

    ghost predicate Valid()
      reads this
    {
      && nextPageId >= 0
      && forall p :: p in store ==> |store[p]| == PageSize
    }

    constructor ()
      ensures Valid()
      ensures store == map[] && nextPageId == 0 && log == []
    {
      store := map[];
      nextPageId := 0;
      log := [];
    }

    method ReadPage(p: PageId) returns (d: PageData)
      requires Valid()
      modifies this
      ensures Valid()
      ensures d == Stored(store, p) && |d| == PageSize
      ensures store == old(store) && nextPageId == old(nextPageId)
      ensures log == old(log) + [Read(p)]
    {
      d := Stored(store, p);
      log := log + [Read(p)];
    }

    method WritePage(p: PageId, d: PageData)
      requires Valid() && |d| == PageSize
      modifies this
      ensures Valid()
      ensures store == old(store)[p := d] && nextPageId == old(nextPageId)
      ensures log == old(log) + [Write(p)]
    {
      store := store[p := d];
      log := log + [Write(p)];
    }

    /** Page ids are handed out by a counter that only grows. */
    method AllocatePage() returns (p: PageId)
      requires Valid()
      modifies this
      ensures Valid()
      ensures p == old(nextPageId) && nextPageId == p + 1
      ensures store == old(store)
      ensures log == old(log) + [Allocate(p)]
    {
      p := nextPageId;
      nextPageId := nextPageId + 1;
      log := log + [Allocate(p)];
    }

    /** Releasing a page id is recorded; ids are never handed out again. */
    method DeallocatePage(p: PageId)
      requires Valid()
      modifies this
      ensures Valid()
      ensures store == old(store) && nextPageId == old(nextPageId)
      ensures log == old(log) + [Deallocate(p)]
    {
      log := log + [Deallocate(p)];
    }
  }
}
